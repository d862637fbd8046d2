/**
 The receive ring of ikcc_service/src/src/xlinkgateway/src/XGByteQueue.c: two 32-bit
 indices that only grow and wrap, masked to the size of the buffer on every access.
 */
module ByteQueue {
  import opened Bytes
  import opened Numbers

  const SIZE: nat := 2048

  /** 32-bit addition and subtraction. */
  function Add(a: word, n: nat): word {
    (a + n) % TWO_TO_THE_32
  }

  function Diff(a: word, b: word): word {
    (a - b) % TWO_TO_THE_32
  }

  /** `i & (BQ_BUFFER_SIZE - 1)` */
  function Masked(i: word): (p: nat)
    ensures p < SIZE
  {
    i % SIZE
  }

  /** The position `n` bytes behind a masked one. */
  function Ahead(p: nat, n: nat): (q: nat)
    requires p < SIZE && n <= SIZE
    ensures q < SIZE
  {
    if p + n < SIZE then p + n else p + n - SIZE
  }

  /** The mask does not notice the wrap of the index, because the buffer size divides 2^32. */
  lemma MaskedAdd(a: word, n: nat)
    requires n <= SIZE
    ensures Masked(Add(a, n)) == Ahead(Masked(a), n)
  {
  }

  lemma DiffAdd(a: word, b: word, n: nat)
    requires Diff(a, b) + n < TWO_TO_THE_32
    ensures Diff(Add(a, n), b) == Diff(a, b) + n
  {
  }

  lemma AheadDiff(a: word, b: word)
    requires Diff(a, b) <= SIZE
    ensures Masked(a) == Ahead(Masked(b), Diff(a, b))
  {
  }

  /** Popping moves the start and leaves the end. */
  lemma DiffSub(a: word, b: word, n: nat)
    requires n <= Diff(a, b)
    ensures Diff(a, Add(b, n)) == Diff(a, b) - n
  {
  }

  /** `n` bytes of a ring from position `p` on. */
  function Ring(buffer: seq<byte>, p: nat, n: nat): (s: seq<byte>)
    requires |buffer| == SIZE && p < SIZE && n <= SIZE
    ensures |s| == n
    ensures forall k :: 0 <= k < n ==> s[k] == buffer[Ahead(p, k)]
  {
    if p + n <= SIZE then buffer[p..p + n] else buffer[p..] + buffer[..p + n - SIZE]
  }

  /** Dropping the oldest bytes of a ring. */
  lemma RingDrop(buffer: seq<byte>, p: nat, n: nat, m: nat)
    requires |buffer| == SIZE && p < SIZE && m <= n <= SIZE
    ensures Ring(buffer, Ahead(p, m), n - m) == Ring(buffer, p, n)[m..]
  {
  }

  /** Writing behind the newest byte of a ring, as long as there is room. */
  lemma RingAppend(before: seq<byte>, after: seq<byte>, p: nat, n: nat, data: seq<byte>)
    requires |before| == |after| == SIZE && p < SIZE && n + |data| <= SIZE
    requires forall k :: 0 <= k < |data| ==> after[Ahead(Ahead(p, n), k)] == data[k]
    requires forall k :: 0 <= k < n ==> after[Ahead(p, k)] == before[Ahead(p, k)]
    ensures Ring(after, p, n + |data|) == Ring(before, p, n) + data
  {
  }

  class Queue {
    const Buffer: array<byte>
    var StartIndex: word
    var EndIndex: word

    /** At most a buffer full is stored. */
    predicate Valid()
      reads this, Buffer
    {
      Buffer.Length == SIZE && Diff(EndIndex, StartIndex) <= SIZE
    }

    /** The stored bytes in the order they came. */
    function Contents(): (s: seq<byte>)
      requires Valid()
      reads this, Buffer
      ensures |s| == Diff(EndIndex, StartIndex)
    {
      Ring(Buffer[..], Masked(StartIndex), Diff(EndIndex, StartIndex))
    }

    /** `XGByteQueueInit` */
    constructor ()
      ensures Valid() && fresh(Buffer) && Contents() == []
    {
      Buffer := new byte[SIZE](_ => 0);
      StartIndex, EndIndex := 0, 0;
    }

    /** `XGByteQueueSize` */
    method Size() returns (n: word)
      requires Valid()
      ensures n == |Contents()|
    {
      n := Diff(EndIndex, StartIndex);
    }

    /** `XGByteQueuePush`: as much as there is room for, in two pieces where the buffer ends. */
    method Push(data: seq<byte>) returns (length: nat)
      requires Valid() && |data| < TWO_TO_THE_32
      modifies this`EndIndex, Buffer
      ensures Valid() && length == Min(|data|, SIZE - |old(Contents())|)
      ensures Contents() == old(Contents()) + data[..length]
    {
      if |data| == 0 {
        return 0;
      }
      length := Min(|data|, SIZE - Diff(EndIndex, StartIndex));
      ghost var n, p := Diff(EndIndex, StartIndex), Masked(StartIndex);
      AheadDiff(EndIndex, StartIndex);
      DiffAdd(EndIndex, StartIndex, length);
      CopyIn(data[..length]);
      forall k | 0 <= k < n ensures Buffer[Ahead(p, k)] == old(Buffer[..])[Ahead(p, k)] {
        assert Ahead(Masked(EndIndex), SIZE - n + k) == Ahead(p, k);
      }
      RingAppend(old(Buffer[..]), Buffer[..], p, n, data[..length]);
      EndIndex := Add(EndIndex, length);
    }

    /** The two `memcpy` calls of `XGByteQueuePush`. */
    method CopyIn(data: seq<byte>)
      requires Valid() && |data| <= SIZE
      modifies Buffer
      ensures forall k :: 0 <= k < |data| ==> Buffer[Ahead(Masked(EndIndex), k)] == data[k]
      ensures forall k :: |data| <= k < SIZE ==> var q := Ahead(Masked(EndIndex), k); Buffer[q] == old(Buffer[q])
    {
      var at := Masked(EndIndex);
      var temp := Min(|data|, SIZE - at);
      forall k | 0 <= k < temp {
        Buffer[at + k] := data[k];
      }
      forall k | 0 <= k < |data| - temp {
        Buffer[k] := data[temp + k];
      }
    }

    /** `XGByteQueuePeer`: a copy of the oldest bytes, which stay where they are. */
    method Peer(length: nat) returns (ret: seq<byte>)
      requires Valid()
      ensures ret == Contents()[..Min(length, |Contents()|)]
    {
      var n := Min(length, Diff(EndIndex, StartIndex));
      var at := Masked(StartIndex);
      var first := Min(n, SIZE - at);
      ret := Buffer[at..at + first] + Buffer[..n - first];
      assert forall k :: 0 <= k < n ==> ret[k] == Buffer[Ahead(at, k)];
    }

    /** `XGByteQueuePop`: both indices return to zero when nothing is left. */
    method Pop(count: nat)
      requires Valid()
      modifies this`StartIndex, this`EndIndex
      ensures Valid() && Contents() == old(Contents())[Min(count, |old(Contents())|)..]
    {
      var length := Min(count, Diff(EndIndex, StartIndex));
      MaskedAdd(StartIndex, length);
      DiffSub(EndIndex, StartIndex, length);
      RingDrop(Buffer[..], Masked(StartIndex), Diff(EndIndex, StartIndex), length);
      ghost var rest := Contents()[length..];
      StartIndex := Add(StartIndex, length);
      assert Contents() == rest;
      if EndIndex == StartIndex {
        StartIndex, EndIndex := 0, 0;
        assert Contents() == [];
      }
    }
  }
}
