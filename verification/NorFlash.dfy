/**
 Writing to a serial NOR flash: nor-spi-driver/spi-nor.c, m25p80.c and ralink_spi.c. A chip programs
 inside one page, wraps at its end, and can only clear bits; the drivers have to cut every write so
 that the chip ends up with each byte programmed once, in its place.
 */
module NorFlash {
  import opened Bits
  import opened Bytes
  import opened Numbers

  // ---- the chip ----

  /** One byte programmed at one address. */
  datatype Write = Write(addr: nat, value: byte)

  /** The bytes of a buffer, each at its place. */
  function Flat(to: nat, buf: seq<byte>): seq<Write> {
    seq(|buf|, k requires 0 <= k < |buf| => Write(to + k, buf[k]))
  }

  /** What the chip makes of one page-program command: the address runs round inside the page. */
  function PageWrites(page: nat, addr: nat, data: seq<byte>): seq<Write>
    requires page > 0
  {
    seq(|data|, k requires 0 <= k < |data| => Write(addr - addr % page + (addr % page + k) % page, data[k]))
  }

  /** Do n bytes from an address on lie in one page? */
  predicate FitsPage(page: nat, addr: nat, n: nat) {
    page > 0 && addr % page + n <= page
  }

  lemma InsidePage(page: nat, addr: nat, data: seq<byte>)
    requires FitsPage(page, addr, |data|)
    ensures PageWrites(page, addr, data) == Flat(addr, data)
  {
    forall k | 0 <= k < |data|
      ensures PageWrites(page, addr, data)[k] == Flat(addr, data)[k]
    {
      SmallModulo(addr % page + k, page);
    }
  }

  lemma SmallModulo(x: nat, page: nat)
    requires x < page
    ensures x % page == x
  {
  }

  /** A log that has the start of a buffer goes on with the next part. */
  lemma FlatGrows(base: seq<Write>, to: nat, buf: seq<byte>, at: nat, data: seq<byte>)
    requires at + |data| <= |buf| && data == buf[at..at + |data|]
    ensures base + Flat(to, buf[..at]) + Flat(to + at, data) == base + Flat(to, buf[..at + |data|])
  {
  }

  /** Programming can only clear bits. */
  function Programmed(mem: seq<byte>, ws: seq<Write>): (m: seq<byte>)
    ensures |m| == |mem|
  {
    if ws == [] then mem
    else
      var m, w := Programmed(mem, ws[..|ws| - 1]), ws[|ws| - 1];
      if w.addr < |mem| then m[w.addr := AndByte(m[w.addr], w.value)] else m
  }

  lemma {:induction false} ProgrammedAppend(mem: seq<byte>, a: seq<Write>, b: seq<Write>)
    ensures Programmed(mem, a + b) == Programmed(Programmed(mem, a), b)
  {
    if b == [] {
      assert a + b == a;
    } else {
      var n := |b| - 1;
      assert (a + b)[..|a| + n] == a + b[..n];
      ProgrammedAppend(mem, a, b[..n]);
    }
  }

  /** On erased bytes a flat write leaves just the buffer, and nothing else changes. */
  lemma {:induction false} ErasedIsWritten(mem: seq<byte>, to: nat, buf: seq<byte>)
    requires to + |buf| <= |mem| && forall k :: to <= k < to + |buf| ==> mem[k] == 0xFF
    ensures Programmed(mem, Flat(to, buf)) == mem[..to] + buf + mem[to + |buf|..]
    decreases |buf|
  {
    if buf == [] {
    } else {
      var n := |buf| - 1;
      var ws := Flat(to, buf);
      ErasedIsWritten(mem, to, buf[..n]);
      assert ws[..n] == Flat(to, buf[..n]);
      AndAllOnes(buf[n]);
    }
  }

  /** A chip, with the write-enable latch that every program command consumes, and the pointer of
      the auto-address-increment mode of SST chips. */
  class Chip {
    const size: nat
    const page: nat
    ghost const pageBits: nat
    var mem: seq<byte>
    var wel: bool
    var aai: nat
    ghost const before: seq<byte>
    ghost var log: seq<Write>

    ghost predicate Valid()
      reads this
    {
      page == Pow2(pageBits) && pageBits <= 32 && |mem| == size && mem == Programmed(before, log)
    }

    constructor (contents: seq<byte>, page: nat, ghost bits: nat)
      requires page == Pow2(bits) && bits <= 32
      ensures Valid() && mem == contents && log == [] && this.page == page && size == |contents| && before == contents
    {
      this.size, this.page, mem, before := |contents|, page, contents, contents;
      wel, aai, log := false, 0, [];
      pageBits := bits;
    }

    /** Bytes go into the cells. */
    method Burn(ws: seq<Write>)
      requires Valid()
      modifies this`mem, this`log
      ensures Valid() && log == old(log) + ws
    {
      ProgrammedAppend(before, log, ws);
      mem := Programmed(mem, ws);
      log := log + ws;
    }

    method WriteEnable()
      modifies this`wel
      ensures wel
    {
      wel := true;
    }

    /** One byte, and the two forms of the pair command of SST chips. */
    method ByteProgram(addr: nat, b: byte)
      requires Valid()
      modifies this`mem, this`log
      ensures Valid() && log == old(log) + Flat(addr, [b])
    {
      Burn(Flat(addr, [b]));
    }

    method AaiFirst(addr: nat, pair: seq<byte>)
      requires Valid() && addr % 2 == 0 && |pair| == 2
      modifies this`mem, this`log, this`aai
      ensures Valid() && log == old(log) + Flat(addr, pair) && aai == addr + 2
    {
      Burn(Flat(addr, pair));
      aai := addr + 2;
    }

    method AaiNext(pair: seq<byte>)
      requires Valid() && aai % 2 == 0 && |pair| == 2
      modifies this`mem, this`log, this`aai
      ensures Valid() && log == old(log) + Flat(old(aai), pair) && aai == old(aai) + 2
    {
      Burn(Flat(aai, pair));
      aai := aai + 2;
    }

    /** The page-program command: ignored unless writing is enabled. */
    method PageProgram(addr: nat, data: seq<byte>)
      requires Valid()
      modifies this`mem, this`log, this`wel
      ensures Valid() && !wel && log == old(log) + if old(wel) then PageWrites(page, addr, data) else []
    {
      if wel {
        Burn(PageWrites(page, addr, data));
      }
      wel := false;
    }
  }

  // ---- spi-nor over m25p80 ----

  /** How `nor->write` reaches the chip: one message, or messages of a limited size. */
  datatype Hook = Direct | Chunked(chunkSize: nat, addrWidth: nat)

  /** The payload `m25p80_chunked_write` puts into a message: the longer address is paid for out of
      the chunk. */
  function Effective(h: Hook, len: nat): int
    requires h.Chunked?
  {
    (if h.chunkSize == 0 then len else h.chunkSize) - (if h.addrWidth > 3 then h.addrWidth - 3 else 0)
  }

  /** How far the loop has come after n rounds. */
  function Reached(chunk: nat, len: nat, n: nat): nat {
    if n == 0 then 0
    else
      var r := Reached(chunk, len, n - 1);
      if r < len then r + Min(chunk, len - r) else r
  }

  lemma {:induction false} Progress(chunk: nat, len: nat, n: nat)
    requires chunk > 0
    ensures Reached(chunk, len, n) >= Min(n, len)
  {
    if n != 0 {
      Progress(chunk, len, n - 1);
    }
  }

  lemma {:induction false} NoProgress(len: nat, n: nat)
    ensures Reached(0, len, n) == 0
  {
    if n != 0 {
      NoProgress(len, n - 1);
    }
  }

  /** After some number of rounds nothing is left. */
  ghost predicate Finishes(chunk: nat, len: nat) {
    exists n :: Reached(chunk, len, n) >= len
  }

  /** The loop of `m25p80_chunked_write` ends exactly when a message carries something, or there is
      nothing to write. */
  lemma ChunkLoopEnds(chunk: nat, len: nat)
    ensures Finishes(chunk, len) <==> chunk > 0 || len == 0
  {
    if chunk > 0 || len == 0 {
      if chunk > 0 {
        Progress(chunk, len, len);
      }
      assert Reached(chunk, len, len) >= len;
    } else {
      forall n
        ensures Reached(chunk, len, n) < len
      {
        NoProgress(len, n);
      }
    }
  }

  /** May this buffer go through the hook? */
  predicate Carries(h: Hook, len: nat) {
    h.Chunked? ==> Effective(h, len) > 0 || len == 0
  }

  /** `m25p80_chunked_write` on bytes that lie in one page. */
  method ChunkedWrite(chip: Chip, h: Hook, to: nat, buf: seq<byte>) returns (retlen: nat)
    requires chip.Valid() && h.Chunked? && Carries(h, |buf|) && FitsPage(chip.page, to, |buf|)
    modifies chip
    ensures chip.Valid() && retlen == |buf| && chip.log == old(chip.log) + Flat(to, buf)
  {
    retlen := 0;
    var chunk := Effective(h, |buf|);
    while retlen < |buf|
      invariant 0 <= retlen <= |buf| && chip.Valid() && chip.log == old(chip.log) + Flat(to, buf[..retlen])
    {
      var len := Min(chunk, |buf| - retlen);
      chip.WriteEnable();
      Message(chip, to, buf, retlen, len, old(chip.log));
      retlen := retlen + len;
    }
    assert buf[..retlen] == buf;
  }

  /** `m25p80_write` of the part of a buffer that goes into one message. */
  method Message(chip: Chip, to: nat, buf: seq<byte>, at: nat, len: nat, ghost base: seq<Write>)
    requires chip.Valid() && chip.wel && at + len <= |buf| && len > 0 && FitsPage(chip.page, to, |buf|)
    requires chip.log == base + Flat(to, buf[..at])
    modifies chip
    ensures chip.Valid() && chip.log == base + Flat(to, buf[..at + len])
  {
    MessageWrites(chip.page, to, buf, at, len, base);
    chip.PageProgram(to + at, buf[at..at + len]);
  }

  lemma MessageWrites(page: nat, to: nat, buf: seq<byte>, at: nat, len: nat, base: seq<Write>)
    requires at + len <= |buf| && len > 0 && FitsPage(page, to, |buf|)
    ensures base + Flat(to, buf[..at]) + PageWrites(page, to + at, buf[at..at + len]) == base + Flat(to, buf[..at + len])
  {
    var data := buf[at..at + len];
    MessageFits(page, to, at, data, |buf|);
    FlatGrows(base, to, buf, at, data);
  }

  lemma MessageFits(page: nat, to: nat, at: nat, data: seq<byte>, len: nat)
    requires at + |data| <= len && data != [] && FitsPage(page, to, len)
    ensures PageWrites(page, to + at, data) == Flat(to + at, data)
  {
    assert FitsPage(page, to, at + |data|);
    InsideSamePage(page, to, at, |data|);
    InsidePage(page, to + at, data);
  }

  lemma InsideSamePage(page: nat, to: nat, done: nat, len: nat)
    requires FitsPage(page, to, done + len) && len > 0
    ensures FitsPage(page, to + done, len)
  {
    RemainderUnique(to + done, to / page, page, to % page + done);
  }

  /** `nor->write` */
  method NorWrite(chip: Chip, h: Hook, to: nat, buf: seq<byte>) returns (retlen: nat)
    requires chip.Valid() && Carries(h, |buf|) && FitsPage(chip.page, to, |buf|) && chip.wel
    modifies chip
    ensures chip.Valid() && retlen == |buf| && chip.log == old(chip.log) + Flat(to, buf)
  {
    match h
    case Direct =>
      InsidePage(chip.page, to, buf);
      chip.PageProgram(to, buf);
      retlen := |buf|;
    case Chunked(_, _) =>
      retlen := ChunkedWrite(chip, h, to, buf);
  }

  // ---- does it end? ----

  /** The loop of `m25p80_chunked_write` on one piece; with addresses of at most four bytes its payload
      is never negative. */
  ghost predicate LoopEnds(h: Hook, len: nat)
    requires h.Chunked? ==> h.addrWidth <= 4
  {
    h.Chunked? && len > 0 ==> Finishes(Effective(h, len), len)
  }

  /** The part of a range that lies on its first page, and the part on its last. */
  function FirstPiece(page: nat, to: nat, len: nat): nat
    requires page > 0
  {
    Min(len, page - to % page)
  }

  function LastPiece(page: nat, to: nat, len: nat): nat
    requires page > 0 && len > 0
  {
    Min(len, (to + len - 1) % page + 1)
  }

  /** Do the loops end on all the pieces `spi_nor_write` makes: the first, then page by page? */
  ghost predicate PiecesEnd(h: Hook, page: nat, to: nat, len: nat)
    requires page > 0 && (h.Chunked? ==> h.addrWidth <= 4)
  {
    LoopEnds(h, FirstPiece(page, to, len)) && PagesEnd(h, page, len - FirstPiece(page, to, len))
  }

  ghost predicate PagesEnd(h: Hook, page: nat, left: nat)
    requires page > 0 && (h.Chunked? ==> h.addrWidth <= 4)
  {
    left == 0 || (LoopEnds(h, Min(left, page)) && PagesEnd(h, page, left - Min(left, page)))
  }

  /** A message for the shorter of the first and the last piece carries something. */
  predicate Suits(h: Hook, page: nat, to: nat, len: nat)
    requires page > 0
  {
    h.Chunked? && len > 0 ==> Effective(h, Min(FirstPiece(page, to, len), LastPiece(page, to, len))) > 0
  }

  lemma LoopEndsExactly(h: Hook, len: nat)
    requires h.Chunked? ==> h.addrWidth <= 4
    ensures LoopEnds(h, len) <==> Carries(h, len)
  {
    if h.Chunked? && len > 0 {
      ChunkLoopEnds(Effective(h, len), len);
    }
  }

  /** What is on the last page when `left` bytes are written from the start of a page on. */
  function Rest(page: nat, left: nat): (n: nat)
    requires page > 0 && left > 0
    ensures n > 0
  {
    if left <= page then left else Rest(page, left - page)
  }

  lemma {:induction false} RestIsRemainder(page: nat, left: nat)
    requires page > 0 && left > 0
    ensures Rest(page, left) == (left - 1) % page + 1
  {
    if left <= page {
      RemainderUnique(left - 1, 0, page, left - 1);
    } else {
      RestIsRemainder(page, left - page);
      OnePageLess(left, page);
    }
  }

  lemma OnePageLess(left: nat, page: nat)
    requires left > page > 0
    ensures (left - 1) % page == (left - page - 1) % page
  {
    var a := left - page - 1;
    RemainderUnique(left - 1, a / page + 1, page, a % page);
  }

  lemma {:induction false} PagesEndExactly(h: Hook, page: nat, left: nat)
    requires page > 0 && left > 0 && (h.Chunked? ==> h.addrWidth <= 4)
    ensures PagesEnd(h, page, left) <==> Carries(h, Rest(page, left)) && (left > page ==> Carries(h, page))
  {
    LoopEndsExactly(h, Min(left, page));
    if left > page {
      PagesEndExactly(h, page, left - page);
    }
  }

  /** `spi_nor_write` ends, whatever the chunk size and on any range, if and only if a message for the
      shorter of its first and last piece carries something, or there is nothing to write. */
  lemma SpiNorWriteEnds(h: Hook, page: nat, to: nat, len: nat)
    requires page > 0 && (h.Chunked? ==> h.addrWidth <= 4)
    ensures PiecesEnd(h, page, to, len) <==> Suits(h, page, to, len)
  {
    var first := FirstPiece(page, to, len);
    LoopEndsExactly(h, first);
    if len > first {
      PagesEndExactly(h, page, len - first);
      LastIsRest(page, to, len);
    } else if len > 0 {
      LastIsAll(page, to, len);
    }
  }

  /** A range inside one page is one piece. */
  lemma LastIsAll(page: nat, to: nat, len: nat)
    requires page > 0 && 0 < len <= FirstPiece(page, to, len)
    ensures FirstPiece(page, to, len) == LastPiece(page, to, len) == len
  {
    RemainderUnique(to + len - 1, to / page, page, to % page + len - 1);
  }

  /** Behind the first page the pieces depend on what is left only. */
  lemma LastIsRest(page: nat, to: nat, len: nat)
    requires page > 0 && len > FirstPiece(page, to, len)
    ensures LastPiece(page, to, len) == Rest(page, len - FirstPiece(page, to, len))
  {
    var left := len - FirstPiece(page, to, len);
    var a := left - 1;
    RestIsRemainder(page, left);
    RestIsShort(page, left);
    RemainderUnique(to + len - 1, to / page + 1 + a / page, page, a % page);
  }

  lemma {:induction false} RestIsShort(page: nat, left: nat)
    requires page > 0 && left > 0
    ensures Rest(page, left) <= left && Rest(page, left) <= page
  {
    if left > page {
      RestIsShort(page, left - page);
    }
  }

  /** The piece that starts at a page inside the range. */
  lemma PieceCarries(h: Hook, page: nat, to: nat, len: nat, i: nat)
    requires page > 0 && Suits(h, page, to, len) && i < len && PageStart(to + i, page)
    ensures Carries(h, Min(len - i, page))
  {
    if len - i < page {
      LastAt(page, to, len, i);
    }
    EffectiveGrows(h, Min(FirstPiece(page, to, len), LastPiece(page, to, len)), Min(len - i, page));
  }

  lemma LastAt(page: nat, to: nat, len: nat, i: nat)
    requires page > 0 && i < len && len - i <= page && PageStart(to + i, page)
    ensures LastPiece(page, to, len) == len - i
  {
    RemainderUnique(to + len - 1, (to + i) / page, page, len - i - 1);
  }

  lemma EffectiveGrows(h: Hook, m: nat, n: nat)
    requires m <= n
    ensures h.Chunked? ==> Effective(h, m) <= Effective(h, n)
  {
  }

  /** `spi_nor_write`: what lies on the first page, then page by page. */
  method SpiNorWrite(chip: Chip, h: Hook, to: nat, buf: seq<byte>) returns (retlen: nat)
    requires chip.Valid() && Suits(h, chip.page, to, |buf|) && to + |buf| <= chip.size
    modifies chip
    ensures chip.Valid() && retlen == |buf| && chip.log == old(chip.log) + Flat(to, buf)
  {
    chip.WriteEnable();
    MaskIsModulo(to, chip.pageBits, 64);
    var pageOffset := AndBits(to, chip.page - 1, 64);
    if pageOffset + |buf| <= chip.page {
      retlen := NorWrite(chip, h, to, buf);
    } else {
      var pageSize := chip.page - pageOffset;
      retlen := NorWrite(chip, h, to, buf[..pageSize]);
      EndOfPage(to, chip.page);
      retlen := Pages(chip, h, to, buf, pageSize, retlen, old(chip.log));
    }
  }

  /** The loop over whole pages and the last part. */
  method Pages(chip: Chip, h: Hook, to: nat, buf: seq<byte>, first: nat, done: nat, ghost base: seq<Write>) returns (retlen: nat)
    requires chip.Valid() && Suits(h, chip.page, to, |buf|) && first == done <= |buf| && PageStart(to + first, chip.page)
    requires chip.log == base + Flat(to, buf[..first])
    modifies chip
    ensures chip.Valid() && retlen == |buf| && chip.log == base + Flat(to, buf)
  {
    retlen := done;
    var i := first;
    while i < |buf|
      invariant i <= |buf| && retlen == i && chip.Valid() && (i < |buf| ==> PageStart(to + i, chip.page))
      invariant chip.log == base + Flat(to, buf[..i])
    {
      var pageSize := Min(|buf| - i, chip.page);
      PieceCarries(h, chip.page, to, |buf|, i);
      var more := OnePage(chip, h, to, buf, i, pageSize, base);
      retlen := retlen + more;
      NextPage(to + i, chip.page);
      i := i + pageSize;
    }
    assert buf[..i] == buf;
  }

  method OnePage(chip: Chip, h: Hook, to: nat, buf: seq<byte>, i: nat, pageSize: nat, ghost base: seq<Write>) returns (more: nat)
    requires chip.Valid() && Carries(h, pageSize) && i + pageSize <= |buf| && pageSize <= chip.page && PageStart(to + i, chip.page)
    requires chip.log == base + Flat(to, buf[..i])
    modifies chip
    ensures chip.Valid() && more == pageSize && chip.log == base + Flat(to, buf[..i + pageSize])
  {
    chip.WriteEnable();
    FlatGrows(base, to, buf, i, buf[i..i + pageSize]);
    more := NorWrite(chip, h, to + i, buf[i..i + pageSize]);
  }

  predicate PageStart(a: nat, page: nat) {
    page > 0 && a % page == 0
  }

  lemma EndOfPage(to: nat, page: nat)
    requires page > 0
    ensures PageStart(to + (page - to % page), page)
  {
    RemainderUnique(to + (page - to % page), to / page + 1, page, 0);
  }

  lemma NextPage(a: nat, page: nat)
    requires page > 0 && PageStart(a, page)
    ensures PageStart(a + page, page)
  {
    RemainderUnique(a + page, a / page + 1, page, 0);
  }

  /** After `spi_nor_write` on an erased range the flash holds the buffer there, and nothing else has
      changed. */
  method WriteErased(chip: Chip, h: Hook, to: nat, buf: seq<byte>) returns (retlen: nat)
    requires chip.Valid() && Suits(h, chip.page, to, |buf|) && to + |buf| <= chip.size
    requires forall k :: to <= k < to + |buf| ==> chip.mem[k] == 0xFF
    modifies chip
    ensures chip.Valid() && retlen == |buf| && chip.mem == old(chip.mem)[..to] + buf + old(chip.mem)[to + |buf|..]
  {
    ProgrammedAppend(chip.before, chip.log, Flat(to, buf));
    ErasedIsWritten(chip.mem, to, buf);
    retlen := SpiNorWrite(chip, h, to, buf);
  }

  /** `m25p80_read`: one message reads any range into the buffer, from `at` on. */
  method Read(chip: Chip, from: nat, len: nat, buf: array<byte>, at: nat)
    requires from + len <= |chip.mem| && at + len <= buf.Length
    modifies buf
    ensures buf[..] == old(buf[..])[..at] + chip.mem[from..from + len] + old(buf[..])[at + len..]
  {
    forall k | 0 <= k < len {
      buf[at + k] := chip.mem[from + k];
    }
  }

  /** A buffer after n bytes have been read into it. */
  function ReadSoFar(mem: seq<byte>, from: nat, was: seq<byte>, n: nat): seq<byte>
    requires from + n <= |mem| && n <= |was|
  {
    mem[from..from + n] + was[n..]
  }

  lemma ReadJoin(mem: seq<byte>, from: nat, was: seq<byte>, done: nat, n: nat)
    requires from + done + n <= |mem| && done + n <= |was|
    ensures var now := ReadSoFar(mem, from, was, done);
      now[..done] + mem[from + done..from + done + n] + now[done + n..] == ReadSoFar(mem, from, was, done + n)
  {
  }

  lemma ReadNothing(mem: seq<byte>, from: nat, was: seq<byte>)
    requires from <= |mem|
    ensures ReadSoFar(mem, from, was, 0) == was
  {
  }

  method ReadRound(chip: Chip, from: nat, buf: array<byte>, done: nat, left: nat, chunk: nat, ghost was: seq<byte>) returns (n: nat)
    requires from + done + left <= |chip.mem| && done + left <= |was| == buf.Length && left > 0 && chunk > 0
    requires buf[..] == ReadSoFar(chip.mem, from, was, done)
    modifies buf
    ensures 0 < n <= left && buf[..] == ReadSoFar(chip.mem, from, was, done + n)
  {
    n := Min(chunk, left);
    ReadJoin(chip.mem, from, was, done, n);
    Read(chip, from + done, n, buf, done);
  }

  /** `m25p80_chunked_read`: here the longer address costs nothing, and every round makes progress. */
  method ChunkedRead(chip: Chip, chunkSize: nat, from: nat, len: nat, buf: array<byte>) returns (retlen: nat)
    requires from + len <= |chip.mem| && len <= buf.Length
    modifies buf
    ensures retlen == len && buf[..] == ReadSoFar(chip.mem, from, old(buf[..]), len)
  {
    var chunk := if chunkSize == 0 then len else chunkSize;
    ReadNothing(chip.mem, from, buf[..]);
    retlen := ReadLoop(chip, chunk, from, len, buf, buf[..]);
  }

  method ReadLoop(chip: Chip, chunk: nat, from: nat, len: nat, buf: array<byte>, ghost was: seq<byte>) returns (retlen: nat)
    requires from + len <= |chip.mem| && len <= |was| == buf.Length && (len > 0 ==> chunk > 0)
    requires buf[..] == ReadSoFar(chip.mem, from, was, 0)
    modifies buf
    ensures retlen == len && buf[..] == ReadSoFar(chip.mem, from, was, len)
  {
    retlen := 0;
    while retlen < len
      invariant retlen <= len && buf[..] == ReadSoFar(chip.mem, from, was, retlen)
    {
      var n := ReadRound(chip, from, buf, retlen, len - retlen, chunk, was);
      retlen := retlen + n;
    }
  }

  /** What was written to an erased range is read back, over whichever hooks. */
  method WriteThenRead(chip: Chip, h: Hook, chunkSize: nat, to: nat, data: seq<byte>, buf: array<byte>)
    requires chip.Valid() && Suits(h, chip.page, to, |data|) && to + |data| <= chip.size && |data| <= buf.Length
    requires forall k :: to <= k < to + |data| ==> chip.mem[k] == 0xFF
    modifies chip, buf
    ensures buf[..|data|] == data
  {
    var written := WriteErased(chip, h, to, data);
    var n := ChunkedRead(chip, chunkSize, to, |data|, buf);
    assert chip.mem[to..to + |data|] == data;
  }

  // ---- SST chips ----

  /** `sst_write`: bytes one by one at odd ends, pairs at even addresses in between. Only the first
      pair carries an address; the chip counts on by itself. */
  method SstWrite(chip: Chip, to: nat, buf: seq<byte>) returns (retlen: nat)
    requires chip.Valid() && to + |buf| <= chip.size && |buf| >= 1
    modifies chip
    ensures chip.Valid() && retlen == |buf| && chip.log == old(chip.log) + Flat(to, buf)
  {
    var actual := to % 2;
    assert Flat(to, buf[..0]) == [];
    if actual != 0 {
      Single(chip, to, buf, 0, old(chip.log));
    }
    actual := Pairs(chip, to, buf, actual, old(chip.log));
    retlen := actual;
    if actual != |buf| {
      Single(chip, to, buf, actual, old(chip.log));
      retlen := retlen + 1;
    }
    assert buf[..retlen] == buf;
  }

  method Single(chip: Chip, start: nat, buf: seq<byte>, at: nat, ghost base: seq<Write>)
    requires chip.Valid() && at < |buf| && chip.log == base + Flat(start, buf[..at])
    modifies chip
    ensures chip.Valid() && chip.log == base + Flat(start, buf[..at + 1])
  {
    FlatGrows(base, start, buf, at, [buf[at]]);
    chip.ByteProgram(start + at, buf[at]);
  }

  /** The loop over pairs. */
  method Pairs(chip: Chip, start: nat, buf: seq<byte>, first: nat, ghost base: seq<Write>) returns (actual: nat)
    requires chip.Valid() && |buf| >= 1 && first == start % 2 && chip.log == base + Flat(start, buf[..first])
    modifies chip
    ensures chip.Valid() && |buf| - 1 <= actual <= |buf| && chip.log == base + Flat(start, buf[..actual])
  {
    actual := first;
    var second := false;
    EvenStart(start);
    while actual < |buf| - 1
      invariant actual <= |buf| && Even(start + actual) && chip.Valid()
      invariant chip.log == base + Flat(start, buf[..actual]) && (second ==> chip.aai == start + actual)
    {
      EvenNext(start + actual);
      Pair(chip, start, buf, actual, second, base);
      actual, second := actual + 2, true;
    }
  }

  predicate Even(a: nat) {
    a % 2 == 0
  }

  lemma EvenStart(a: nat)
    ensures Even(a + a % 2)
  {
  }

  lemma EvenNext(a: nat)
    requires Even(a)
    ensures Even(a + 2)
  {
  }

  method Pair(chip: Chip, start: nat, buf: seq<byte>, actual: nat, second: bool, ghost base: seq<Write>)
    requires chip.Valid() && actual + 2 <= |buf| && Even(start + actual) && (second ==> chip.aai == start + actual)
    requires chip.log == base + Flat(start, buf[..actual])
    modifies chip
    ensures chip.Valid() && chip.aai == start + actual + 2 && chip.log == base + Flat(start, buf[..actual + 2])
  {
    var pair := buf[actual..actual + 2];
    FlatGrows(base, start, buf, actual, pair);
    if second {
      chip.AaiNext(pair);
    } else {
      chip.AaiFirst(start + actual, pair);
    }
  }

  // ---- ralink_spi ----

  const FLASH_PAGESIZE: nat := 256

  const SPI_FIFO_SIZE: nat := 16

  /** The transmit queue of the controller: filled by the driver, emptied by the line. */
  class Fifo {
    var queue: seq<byte>
    var sent: seq<byte>

    ghost predicate Valid()
      reads this
    {
      |queue| <= SPI_FIFO_SIZE
    }

    constructor ()
      ensures Valid() && queue == [] && sent == []
    {
      queue, sent := [], [];
    }

    /** A byte written to a full queue would be lost. */
    method Put(b: byte)
      requires Valid() && |queue| < SPI_FIFO_SIZE
      modifies this
      ensures Valid() && sent + queue == old(sent + queue) + [b] && |queue| == old(|queue|) + 1
    {
      queue := queue + [b];
    }

    /** The line takes up to n bytes; returns the fill level read then. */
    method Drain(n: nat) returns (level: nat)
      requires Valid()
      modifies this
      ensures Valid() && sent + queue == old(sent + queue) && level == |queue| == old(|queue|) - Min(n, old(|queue|))
    {
      var m := Min(n, |queue|);
      assert sent + queue == sent + queue[..m] + queue[m..];
      sent, queue := sent + queue[..m], queue[m..];
      level := |queue|;
    }
  }

  method Fill(fifo: Fifo, buf: seq<byte>, at: nat, count: nat)
    requires fifo.Valid() && |fifo.queue| + count <= SPI_FIFO_SIZE && at + count <= |buf|
    requires fifo.sent + fifo.queue == buf[..at]
    modifies fifo
    ensures fifo.Valid() && fifo.sent + fifo.queue == buf[..at + count] && |fifo.queue| == old(|fifo.queue|) + count
  {
    var i := 0;
    while i < count
      invariant i <= count && fifo.sent + fifo.queue == buf[..at + i] && |fifo.queue| == old(|fifo.queue|) + i
    {
      assert buf[..at + i] + [buf[at + i]] == buf[..at + i + 1];
      fifo.Put(buf[at + i]);
      i := i + 1;
    }
  }

  /** The transmit loop of `raspi_cmd`: the queue is never overfilled, and the chip gets every byte
      once, in order. `pace` says how many bytes have left between two looks at the fill level; the
      wait for a free place ends when at least one has. */
  method Transmit(buf: seq<byte>, pace: nat -> nat) returns (data: seq<byte>, retval: nat)
    requires forall i :: pace(i) >= 1
    ensures data == buf && retval == |buf|
  {
    var fifo := new Fifo();
    var count := Min(SPI_FIFO_SIZE, |buf|);
    retval := 0;
    while retval < |buf|
      invariant fresh(fifo) && fifo.Valid() && 0 <= count <= |buf| - retval && fifo.sent + fifo.queue == buf[..retval]
      invariant |fifo.queue| + count <= SPI_FIFO_SIZE && (retval < |buf| ==> count > 0)
      decreases |buf| - retval
    {
      Fill(fifo, buf, retval, count);
      retval := retval + count;
      var reg := fifo.Drain(pace(retval));
      count := SPI_FIFO_SIZE - reg;
      if retval + count > |buf| {
        count := |buf| - retval;
      }
    }
    var level := fifo.Drain(SPI_FIFO_SIZE);
    assert fifo.sent + [] == fifo.sent && buf[..retval] == buf;
    data := fifo.sent;
  }

  const EINVAL: int := 22

  /** `ramtd_write`, on an unprotected chip. */
  method RamtdWrite(chip: Chip, start: nat, buf: seq<byte>, pace: nat -> nat) returns (status: int, retlen: nat)
    requires chip.Valid() && chip.page == FLASH_PAGESIZE && forall i :: pace(i) >= 1
    modifies chip
    ensures chip.Valid()
    ensures |buf| > 0 && start + |buf| > chip.size ==> status == -EINVAL && chip.log == old(chip.log)
    ensures |buf| == 0 || start + |buf| <= chip.size ==>
      status == 0 && retlen == |buf| && chip.log == old(chip.log) + Flat(start, buf)
  {
    retlen, status := 0, 0;
    if |buf| == 0 {
      assert Flat(start, buf) == [];
      return;
    }
    if start + |buf| > chip.size {
      return -EINVAL, 0;
    }
    retlen := RamtdPages(chip, start, buf, pace);
  }

  /** The page loop of `ramtd_write`. */
  method RamtdPages(chip: Chip, start: nat, buf: seq<byte>, pace: nat -> nat) returns (retlen: nat)
    requires chip.Valid() && chip.page == FLASH_PAGESIZE && forall i :: pace(i) >= 1
    modifies chip
    ensures chip.Valid() && retlen == |buf| && chip.log == old(chip.log) + Flat(start, buf)
  {
    var pageOffset, i := start % FLASH_PAGESIZE, 0;
    retlen := 0;
    while i < |buf|
      invariant i <= |buf| && retlen == i && pageOffset >= 0 && chip.Valid() && (i < |buf| ==> AtOffset(start + i, pageOffset))
      invariant chip.log == old(chip.log) + Flat(start, buf[..i])
    {
      var pageSize, retval := RamtdPage(chip, start, buf, i, pageOffset, pace, old(chip.log));
      retlen := retlen + retval;
      pageOffset := 0;
      i := i + pageSize;
    }
    assert buf[..i] == buf;
  }

  predicate AtOffset(a: nat, offset: nat) {
    a % FLASH_PAGESIZE == offset
  }

  lemma PageEnds(a: nat, pageSize: nat, left: nat)
    requires pageSize == Min(left, FLASH_PAGESIZE - a % FLASH_PAGESIZE)
    ensures pageSize < left ==> AtOffset(a + pageSize, 0)
  {
  }

  method RamtdPage(chip: Chip, start: nat, buf: seq<byte>, i: nat, pageOffset: nat, pace: nat -> nat, ghost base: seq<Write>)
    returns (pageSize: nat, retval: nat)
    requires chip.Valid() && chip.page == FLASH_PAGESIZE && i < |buf| && forall i :: pace(i) >= 1
    requires AtOffset(start + i, pageOffset) && chip.log == base + Flat(start, buf[..i])
    modifies chip
    ensures chip.Valid() && 0 < pageSize <= |buf| - i && retval == pageSize
    ensures chip.log == base + Flat(start, buf[..i + pageSize])
    ensures i + pageSize < |buf| ==> AtOffset(start + (i + pageSize), 0)
  {
    pageSize := Min(|buf| - i, FLASH_PAGESIZE - pageOffset);
    PageEnds(start + i, pageSize, |buf| - i);
    var data;
    data, retval := Transmit(buf[i..i + pageSize], pace);
    ProgramSlice(chip, start, buf, i, data, base);
  }

  method ProgramSlice(chip: Chip, start: nat, buf: seq<byte>, i: nat, data: seq<byte>, ghost base: seq<Write>)
    requires chip.Valid() && i + |data| <= |buf| && data == buf[i..i + |data|]
    requires FitsPage(chip.page, start + i, |data|) && chip.log == base + Flat(start, buf[..i])
    modifies chip
    ensures chip.Valid() && chip.log == base + Flat(start, buf[..i + |data|])
  {
    InsidePage(chip.page, start + i, data);
    FlatGrows(base, start, buf, i, data);
    chip.Burn(PageWrites(chip.page, start + i, data));
  }
}
