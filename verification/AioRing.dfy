/**
 * The ring buffer of the asynchronous writer: a growable circular array refines a queue of bytes.
 * One slot always stays unused, so equal positions mean an empty queue.
 */
module AioRing {
  import opened Bytes

  const ASYNC_BUFSIZE: nat := 8 * 1024
  const ASYNC_LOCAL_BUFSIZE: nat := 64 * 1024

  // ----- Growing: a doubling of a 32-bit unsigned number -----

  function Doubled(cur: int): int {
    (2 * cur) % U32
  }

  /** The number reached after `k` doublings of `cur`. */
  function Doublings(cur: int, k: nat): int {
    if k == 0 then cur else Doubled(Doublings(cur, k - 1))
  }

  function Pow2(k: nat): nat {
    if k == 0 then 1 else 2 * Pow2(k - 1)
  }

  /** The sizes a buffer can have: 8 KiB, doubled any number of times up to 2^31. */
  predicate BufferSize(size: int)
    decreases size
  {
    size == ASYNC_BUFSIZE || (ASYNC_BUFSIZE < size <= 0x8000_0000 && size % 2 == 0 && BufferSize(size / 2))
  }

  lemma BufferSizeGap(size: int, k: nat)
    requires BufferSize(size) && k > 0 && size < ASYNC_BUFSIZE * Pow2(k)
    ensures size <= ASYNC_BUFSIZE * Pow2(k - 1)
  {
    if size > ASYNC_BUFSIZE {
      if k > 1 {
        BufferSizeGap(size / 2, k - 1);
      }
    } else {
      Pow2Positive(k - 1);
    }
  }

  lemma BufferSizeDoubles(size: int)
    requires BufferSize(size) && size < 0x8000_0000
    ensures BufferSize(2 * size) && Doubled(size) == 2 * size
  {
    Pow2Values();
    BufferSizeGap(size, 18);
    assert (2 * size) / 2 == size;
  }

  lemma Pow2Values()
    ensures Pow2(17) == 0x2_0000 && Pow2(18) == 0x4_0000
  {
    assert Pow2(6) == 64;
    assert Pow2(12) == 0x1000;
  }

  lemma {:induction false} Pow2Positive(k: nat)
    ensures Pow2(k) >= 1
  {
    if k > 0 {
      Pow2Positive(k - 1);
    }
  }

  /** The doubling loop.  The measure is real: every round doubles `cur` without wrapping around. */
  method NextBufferSize(curSize: int, needSize: int) returns (size: int)
    requires BufferSize(curSize) && needSize <= 0x8000_0000
    ensures BufferSize(size) && size >= needSize && size >= curSize
    ensures size == curSize || size < 2 * needSize
    ensures exists k: nat :: size == Doublings(curSize, k)
  {
    size := curSize;
    ghost var k: nat := 0;
    while size < needSize
      invariant BufferSize(size) && curSize <= size
      invariant size == curSize || size < 2 * needSize
      invariant size == Doublings(curSize, k)
      decreases needSize - size
    {
      BufferSizeDoubles(size);
      size := Doubled(size);
      k := k + 1;
    }
  }

  lemma BufferSizeBound(size: int)
    requires BufferSize(size)
    ensures ASYNC_BUFSIZE <= size <= 0x8000_0000
  {
  }

  lemma {:induction false} DoublingsBound(cur: int, k: nat)
    requires BufferSize(cur)
    ensures Doublings(cur, k) == 0 || BufferSize(Doublings(cur, k))
  {
    hide BufferSize;
    if k > 0 {
      DoublingsBound(cur, k - 1);
      var size := Doublings(cur, k - 1);
      if size == 0 || size == 0x8000_0000 {
        assert Doubled(size) == 0;
      } else {
        BufferSizeBound(size);
        BufferSizeDoubles(size);
      }
    }
  }

  lemma DoublingsReach(cur: int, need: int) returns (k: nat)
    requires BufferSize(cur) && need <= 0x8000_0000
    ensures Doublings(cur, k) >= need
    decreases 0x8000_0000 - cur
  {
    if cur >= need {
      k := 0;
    } else {
      BufferSizeDoubles(cur);
      var rest := DoublingsReach(2 * cur, need);
      DoublingsShift(cur, rest);
      k := rest + 1;
    }
  }

  lemma {:induction false} DoublingsShift(cur: int, k: nat)
    requires 0 <= 2 * cur < U32
    ensures Doublings(2 * cur, k) == Doublings(cur, k + 1)
  {
    if k > 0 {
      DoublingsShift(cur, k - 1);
    } else {
      assert Doublings(cur, 1) == Doubled(Doublings(cur, 0));
    }
  }

  /** The loop guard becomes false after some number of doublings if and only if the need is at most 2^31. */
  lemma GrowthTerminatesExactly(cur: int, need: int)
    requires BufferSize(cur)
    ensures (exists k: nat :: Doublings(cur, k) >= need) <==> need <= 0x8000_0000
  {
    if need <= 0x8000_0000 {
      var k := DoublingsReach(cur, need);
    } else {
      forall k: nat
        ensures Doublings(cur, k) < need
      {
        DoublingsBound(cur, k);
        if Doublings(cur, k) != 0 {
          BufferSizeBound(Doublings(cur, k));
        }
      }
    }
  }

  /** The need of `len` queued and `size` new bytes and one free slot, a 32-bit sum. */
  function Need(len: nat, size: nat): (need: nat)
    ensures len + size + 1 < U32 ==> need == len + size + 1
  {
    (len + size + 1) % U32
  }

  /** The loop stops after `k` doublings: the guard fails then and at no earlier time. */
  predicate StopsAfter(cur: int, need: int, k: nat) {
    Doublings(cur, k) >= need && forall j: nat | j < k :: Doublings(cur, j) < need
  }

  lemma FirstStop(cur: int, need: int, k: nat) returns (first: nat)
    requires Doublings(cur, k) >= need
    ensures StopsAfter(cur, need, first)
  {
    first := 0;
    while Doublings(cur, first) < need
      invariant first <= k && forall j: nat | j < first :: Doublings(cur, j) < need
      decreases k - first
    {
      first := first + 1;
    }
  }

  /**
   * From a buffer of size `cur` the loop stops with a size that holds the queued and the new bytes and a free
   * slot if and only if that is at most 2^31 bytes in all.  From 2^32 on it can stop with too small a size.
   */
  lemma GrowthSucceedsExactly(cur: int, len: nat, size: nat)
    requires BufferSize(cur)
    ensures (exists k: nat :: StopsAfter(cur, Need(len, size), k) && Doublings(cur, k) > len + size)
            <==> len + size < 0x8000_0000
  {
    var total := len + size + 1;
    if total <= 0x8000_0000 {
      var k := DoublingsReach(cur, total);
      var first := FirstStop(cur, total, k);
    } else {
      forall k: nat
        ensures Doublings(cur, k) < total
      {
        DoublingsBound(cur, k);
        if Doublings(cur, k) != 0 {
          BufferSizeBound(Doublings(cur, k));
        }
      }
    }
  }

  /** With an empty ring and 2^32 - 1 bytes to write the need wraps to zero, and the buffer stays as it is. */
  lemma WrappedNeedStopsShort(cur: int)
    requires BufferSize(cur)
    ensures StopsAfter(cur, Need(0, U32 - 1), 0) && Doublings(cur, 0) == cur <= 0x8000_0000
  {
    BufferSizeBound(cur);
  }

  // ----- The ring -----

  /** The bytes between the read position `r` and the write position `w` of a circular buffer. */
  function View(buf: seq<Byte>, r: nat, w: nat): seq<Byte>
    requires r < |buf| && w < |buf|
  {
    if r <= w then buf[r..w] else buf[r..] + buf[..w]
  }

  /** `buf` with `data` stored at offset `at`. */
  function Spliced(buf: seq<Byte>, at: nat, data: seq<Byte>): (next: seq<Byte>)
    requires at + |data| <= |buf|
    ensures |next| == |buf|
  {
    buf[..at] + data + buf[at + |data|..]
  }

  /** Storing `data` right behind a prefix extends the prefix. */
  lemma SplicedPrefix(buf: seq<Byte>, prefix: seq<Byte>, data: seq<Byte>)
    requires |prefix| + |data| <= |buf| && buf[..|prefix|] == prefix
    ensures Spliced(buf, |prefix|, data)[..|prefix| + |data|] == prefix + data
  {
  }

  /** The part of `piece` that fits into `room` bytes. */
  function Clipped(piece: seq<Byte>, room: nat): seq<Byte> {
    if |piece| > room then piece[..room] else piece
  }

  /** Clipping two pieces one after the other takes the front of their concatenation. */
  lemma ClippedConcat(piece1: seq<Byte>, piece2: seq<Byte>, room: nat)
    ensures |Clipped(piece1, room)| <= room
    ensures var part1 := Clipped(piece1, room); var part2 := Clipped(piece2, room - |part1|);
      && |part1| + |part2| == Min(|piece1 + piece2|, room)
      && part1 + part2 == (piece1 + piece2)[..|part1| + |part2|]
  {
  }

  /** A position below twice the size, reduced to the buffer. */
  function Wrap(x: nat, size: nat): (p: nat)
    requires x < 2 * size
    ensures p < size && p == x % size
  {
    WrapIsMod(x, size);
    if x < size then x else x - size
  }

  lemma WrapIsMod(x: nat, size: nat)
    requires x < 2 * size
    ensures x % size == if x < size then x else x - size
  {
    if x >= size {
      assert x == size * 1 + (x - size);
    }
  }

  lemma SplicedAtEnd(buf: seq<Byte>, w: nat, part: seq<Byte>)
    requires w + |part| == |buf|
    ensures Spliced(buf, w, part) == buf[..w] + part
  {
    assert buf[|buf|..] == [];
  }

  lemma SplicedAtStart(buf: seq<Byte>, part: seq<Byte>, r: nat)
    requires |part| <= r <= |buf|
    ensures var next := Spliced(buf, 0, part); next[..|part|] == part && next[r..] == buf[r..]
  {
  }

  lemma DropFront(a: seq<Byte>, b: seq<Byte>, r: nat)
    requires r <= |a|
    ensures (a + b)[r..] == a[r..] + b
  {
  }

  /** Writing `data` at `w` without reaching past the end appends it to the view. */
  lemma ViewStraight(buf: seq<Byte>, r: nat, w: nat, data: seq<Byte>, next: seq<Byte>)
    requires r < |buf| && w < |buf| && |View(buf, r, w)| + |data| < |buf| && w + |data| <= |buf|
    requires next == Spliced(buf, w, data)
    ensures View(next, r, Wrap(w + |data|, |buf|)) == View(buf, r, w) + data
  {
    if r <= w {
      assert next[r..w + |data|] == buf[r..w] + data;
      if w + |data| == |buf| {
        assert next[r..] + next[..0] == next[r..w + |data|];
      }
    } else {
      assert next[r..] == buf[r..];
      assert next[..w + |data|] == buf[..w] + data;
    }
  }

  /** Writing to the end and going on at position zero appends both parts to the view. */
  lemma ViewWrapped(buf: seq<Byte>, r: nat, w: nat, part1: seq<Byte>, part2: seq<Byte>, next: seq<Byte>)
    requires r < |buf| && w < |buf| && w + |part1| == |buf| && part2 != []
    requires |View(buf, r, w)| + |part1| + |part2| < |buf|
    requires next == Spliced(Spliced(buf, w, part1), 0, part2)
    ensures View(next, r, Wrap(|part2|, |buf|)) == View(buf, r, w) + (part1 + part2)
  {
    hide Spliced;
    assert r <= w && |part2| < r;
    SplicedAtEnd(buf, w, part1);
    SplicedAtStart(buf[..w] + part1, part2, r);
    DropFront(buf[..w], part1, r);
    assert buf[..w][r..] == buf[r..w];
    assert buf[r..w] + part1 + part2 == buf[r..w] + (part1 + part2);
  }

  /** Moving the read position forward by `n` drops the `n` oldest bytes of the view. */
  lemma ViewDrop(buf: seq<Byte>, r: nat, w: nat, n: nat)
    requires r < |buf| && w < |buf| && n <= |View(buf, r, w)|
    ensures View(buf, Wrap(r + n, |buf|), w) == View(buf, r, w)[n..]
  {
    if r > w && r + n >= |buf| {
      assert (buf[r..] + buf[..w])[n..] == buf[r + n - |buf|..w];
    } else if r > w {
      assert (buf[r..] + buf[..w])[n..] == buf[r + n..] + buf[..w];
    }
  }

  class AsyncIo {
    var buffer: array<Byte>
    var readPos: nat
    var writePos: nat

    ghost predicate Valid()
      reads this
    {
      && BufferSize(buffer.Length)
      && readPos < buffer.Length
      && writePos < buffer.Length
    }

    /** The queued bytes, oldest first. */
    ghost function Contents(): seq<Byte>
      requires Valid()
      reads this, buffer
    {
      View(buffer[..], readPos, writePos)
    }

    constructor ()
      ensures Valid() && Contents() == [] && fresh(buffer) && buffer.Length == 8 * 1024
    {
      buffer := new Byte[ASYNC_BUFSIZE](_ => 0);
      readPos := 0;
      writePos := 0;
      new;
    }

    function BufferLen(): (len: int)
      requires Valid()
      reads this, buffer
      ensures len == |Contents()| && 0 <= len < buffer.Length
    {
      if writePos >= readPos then writePos - readPos else buffer.Length + writePos - readPos
    }

    /** Stores `data` at offset `at` of `dst`. */
    static method MemCopy(dst: array<Byte>, at: nat, data: seq<Byte>)
      requires at + |data| <= dst.Length
      modifies dst
      ensures dst[..] == Spliced(old(dst[..]), at, data)
    {
      forall k | 0 <= k < |data| {
        dst[at + k] := data[k];
      }
    }

    /** The one or two contiguous pieces that make up the queued bytes. */
    method BufferPtrs() returns (piece1: seq<Byte>, piece2: seq<Byte>)
      requires Valid()
      ensures piece1 + piece2 == Contents()
      ensures readPos + |piece1| <= buffer.Length && piece1 == buffer[readPos..readPos + |piece1|]
      ensures piece2 != [] ==> readPos + |piece1| == buffer.Length && piece2 == buffer[..|piece2|]
    {
      if readPos < writePos {
        piece1, piece2 := buffer[readPos..writePos], [];
      } else if readPos > writePos {
        piece1, piece2 := buffer[readPos..], buffer[..writePos];
      } else {
        piece1, piece2 := [], [];
      }
    }

    /** Appends `data` to the queue in place when it fits, leaving one slot unused. */
    method WriteInPlace(data: seq<Byte>)
      requires Valid() && |data| < buffer.Length - BufferLen()
      modifies this`writePos, buffer
      ensures Valid() && Contents() == old(Contents()) + data
    {
      hide View, Spliced, BufferSize;
      ghost var was, at, length := buffer[..], writePos, BufferLen();
      var contiguous := buffer.Length - writePos;
      var rest := data;
      if |data| > contiguous {
        MemCopy(buffer, writePos, data[..contiguous]);
        rest := data[contiguous..];
        writePos := 0;
      }
      MemCopy(buffer, writePos, rest);
      if |data| > contiguous {
        ViewWrapped(was, readPos, at, data[..contiguous], rest, buffer[..]);
        assert data == data[..contiguous] + rest;
      } else {
        ViewStraight(was, readPos, at, data, buffer[..]);
      }
      WrapIsMod(writePos + |rest|, buffer.Length);
      writePos := (writePos + |rest|) % buffer.Length;
    }

    /** A new buffer of the given size with three pieces at its front. */
    static method Gather(size: nat, piece1: seq<Byte>, piece2: seq<Byte>, data: seq<Byte>)
      returns (buffer: array<Byte>, len: nat)
      requires |piece1| + |piece2| + |data| <= size
      ensures fresh(buffer) && buffer.Length == size
      ensures len == |piece1| + |piece2| + |data| && buffer[..len] == piece1 + piece2 + data
    {
      buffer := new Byte[size](_ => 0);
      len := 0;
      SplicedPrefix(buffer[..], [], piece1);
      MemCopy(buffer, len, piece1);
      len := len + |piece1|;
      SplicedPrefix(buffer[..], piece1, piece2);
      MemCopy(buffer, len, piece2);
      len := len + |piece2|;
      SplicedPrefix(buffer[..], piece1 + piece2, data);
      MemCopy(buffer, len, data);
      len := len + |data|;
    }

    /** Moves the queue and `data` into a larger buffer, queue first, starting at position zero. */
    method WriteGrowing(data: seq<Byte>)
      requires Valid() && |data| >= buffer.Length - BufferLen()
      requires BufferLen() + |data| + 1 <= 0x8000_0000
      modifies this
      ensures Valid() && Contents() == old(Contents()) + data
      ensures fresh(buffer) && old(buffer.Length) < buffer.Length < 2 * (|Contents()| + 1)
      ensures readPos == 0
    {
      var newWritten := Need(BufferLen(), |data|);
      var nextSize := NextBufferSize(buffer.Length, newWritten);
      var piece1, piece2 := BufferPtrs();
      var nextBuffer, nextLen := Gather(nextSize, piece1, piece2, data);
      buffer := nextBuffer;
      readPos := 0;
      writePos := nextLen;
    }

    /**
     * Queue append.  The buffer is replaced only when the bytes would not leave a free slot, and then by a
     * strictly larger one that is less than twice as large as needed.
     */
    method WriteUnlocked(data: seq<Byte>)
      requires Valid()
      requires BufferLen() + |data| + 1 <= 0x8000_0000
      modifies this, buffer
      ensures Valid() && Contents() == old(Contents()) + data
      ensures old(BufferLen()) + |data| < old(buffer.Length) ==> buffer == old(buffer)
      ensures old(BufferLen()) + |data| >= old(buffer.Length) ==>
        fresh(buffer) && old(buffer.Length) < buffer.Length < 2 * (|Contents()| + 1)
    {
      var remaining := buffer.Length - BufferLen();
      if |data| < remaining {
        WriteInPlace(data);
      } else {
        WriteGrowing(data);
      }
    }

    /** Fills a local buffer with as much of two pieces as fits. */
    static method FillLocal(piece1: seq<Byte>, piece2: seq<Byte>) returns (local: array<Byte>, localLen: nat)
      ensures fresh(local)
      ensures localLen == Min(|piece1 + piece2|, 64 * 1024) <= local.Length
      ensures local[..localLen] == (piece1 + piece2)[..localLen]
    {
      local := new Byte[ASYNC_LOCAL_BUFSIZE](_ => 0);
      localLen := 0;
      var part1 := Clipped(piece1, local.Length - localLen);
      SplicedPrefix(local[..], [], part1);
      MemCopy(local, localLen, part1);
      localLen := localLen + |part1|;
      var part2 := Clipped(piece2, local.Length - localLen);
      SplicedPrefix(local[..], part1, part2);
      MemCopy(local, localLen, part2);
      localLen := localLen + |part2|;
      ClippedConcat(piece1, piece2, local.Length);
    }

    /** The drain thread's part: moves as many of the oldest bytes as fit into a local buffer. */
    method TakeChunk() returns (local: array<Byte>, localLen: nat)
      requires Valid()
      modifies this`readPos
      ensures Valid() && fresh(local)
      ensures localLen == Min(old(|Contents()|), 64 * 1024) <= local.Length
      ensures local[..localLen] == old(Contents())[..localLen]
      ensures Contents() == old(Contents())[localLen..]
    {
      hide View, BufferSize, Clipped;
      ghost var length := BufferLen();
      var piece1, piece2 := BufferPtrs();
      local, localLen := FillLocal(piece1, piece2);
      ViewDrop(buffer[..], readPos, writePos, localLen);
      readPos := (readPos + localLen) % buffer.Length;
    }
  }
}
