/**
  The growing ring buffer of ASYNCIO (src/base/system.cpp), as a class over an array.

  Everything here happens while the ASYNCIO lock is held; the lock, the semaphore and the
  life time of the structure are the subject of AsyncProtocol.
  All positions and sizes are 32-bit unsigned numbers: u32 makes every operation prove
  that it stays in range.
  */
module AsyncRing {
  import opened Bytes
  import opened Common

  newtype u32 = n: int | 0 <= n < 0x1_0000_0000

  const ASYNC_BUFSIZE: u32 := 8 * 1024
  const ASYNC_LOCAL_BUFSIZE: u32 := 64 * 1024
  /** The largest power of two that a 32-bit buffer size can take. */
  const MAX_RING: int := 0x8000_0000

  /** Sizes the buffer can have: ASYNC_BUFSIZE doubled any number of times. */
  ghost predicate IsRingSize(n: int) {
    n == 8192 || (n > 8192 && n % 2 == 0 && IsRingSize(n / 2))
  }

  /** Position `i` of a buffer of `size` bytes that continues at its start. */
  function Wrap(i: int, size: int): (r: int)
  {
    if i < size then i else i - size
  }

  function RingLen(size: int, readPos: int, writePos: int): (r: int)
  {
    if writePos >= readPos then writePos - readPos else size + writePos - readPos
  }

  /** Bytes between the read and the write position, in reading order. */
  function RingContents(buffer: seq<byte>, readPos: int, writePos: int): (r: seq<byte>)
    requires 0 <= readPos < |buffer| && 0 <= writePos < |buffer|
    ensures |r| == RingLen(|buffer|, readPos, writePos)
    ensures forall i :: 0 <= i < |r| ==> r[i] == buffer[Wrap(readPos + i, |buffer|)]
  {
    seq(RingLen(|buffer|, readPos, writePos),
        i requires 0 <= i < RingLen(|buffer|, readPos, writePos) => buffer[Wrap(readPos + i, |buffer|)])
  }

  lemma StraightContents(buffer: seq<byte>, n: nat)
    requires n < |buffer|
    ensures RingContents(buffer, 0, n) == buffer[..n]
  {
  }

  /** A queue of `len` bytes can take `size` more; see GrowthIsExact for why this is the bound. */
  predicate Fits(len: int, size: int) {
    len + size + 1 <= MAX_RING
  }

  /** How much the writer takes in one go. */
  function DrainLen(len: nat): (n: nat)
  {
    if len > ASYNC_LOCAL_BUFSIZE as int then ASYNC_LOCAL_BUFSIZE as int else len
  }

  // ---------------------------------------------------------------- growth

  /** `cur_size *= 2` in 32-bit arithmetic, repeated. */
  function Doubled(cur: u32, times: nat): (r: u32)
  {
    if times == 0 then cur else ((2 * (Doubled(cur, times - 1) as int)) % 0x1_0000_0000) as u32
  }

  lemma {:induction false} RingSizeIsMultiple(n: int)
    requires IsRingSize(n)
    ensures n >= 8192 && n % 8192 == 0
  {
    if n != 8192 {
      RingSizeIsMultiple(n / 2);
      TwiceMultiple(n / 2, n);
    }
  }

  lemma TwiceMultiple(half: nat, n: nat)
    requires n == 2 * half && half % 8192 == 0
    ensures n % 8192 == 0
  {
    var k := half / 8192;
    Multiple(2 * k);
    assert n == 8192 * (2 * k);
  }

  lemma Multiple(k: nat)
    ensures 8192 * k % 8192 == 0
  {
  }

  lemma TwiceIsRingSize(n: int)
    requires IsRingSize(n) && n >= 8192
    ensures IsRingSize(2 * n)
  {
    assert 2 * n / 2 == n && 2 * n % 2 == 0;
  }

  lemma RingSizeBounds(n: int)
    requires IsRingSize(n) && n <= MAX_RING
    ensures n >= 8192 && n % 8192 == 0
    ensures n < MAX_RING ==> 2 * n <= MAX_RING && IsRingSize(2 * n)
  {
    RingSizeIsMultiple(n);
    TwiceIsRingSize(n);
    if 2 * n > MAX_RING && n < MAX_RING {
      LargestRing();
      RingSizeAbove(n, 18);
    }
  }

  lemma LargestRing()
    ensures 8192 * Pow2(18) == MAX_RING
  {
    assert Pow2(6) == 64;
    assert Pow2(12) == 4096;
  }

  /** No ring size lies strictly between 8192 * 2^k / 2 and 8192 * 2^k. */
  lemma {:induction false} RingSizeAbove(n: int, k: nat)
    requires IsRingSize(n)
    requires 8192 * Pow2(k) < 2 * n
    ensures n >= 8192 * Pow2(k)
  {
    if k == 0 {
      RingSizeAtLeast(n);
    } else {
      assert n > 8192;
      RingSizeAbove(n / 2, k - 1);
    }
  }

  lemma {:induction false} RingSizeAtLeast(n: int)
    requires IsRingSize(n)
    ensures n >= 8192
  {
  }

  /** The loop of next_buffer_size. It is only entered where it ends, see GrowthIsExact. */
  method NextBufferSize(curSize: u32, needSize: u32) returns (r: u32)
    requires IsRingSize(curSize as int) && curSize as int <= MAX_RING
    requires needSize as int <= MAX_RING
    ensures IsRingSize(r as int) && r as int <= MAX_RING
    ensures r >= needSize && r >= curSize
    ensures r == curSize || (r as int) / 2 < needSize as int
  {
    r := curSize;
    while r < needSize
      invariant IsRingSize(r as int) && curSize <= r && r as int <= MAX_RING
      invariant r == curSize || (r as int) / 2 < needSize as int
      decreases MAX_RING - r as int
    {
      RingSizeBounds(r as int);
      r := r * 2;
    }
  }

  /** The loop of next_buffer_size ends after `times` doublings. */
  ghost predicate LoopEndsAfter(cur: u32, need: u32, times: nat) {
    Doubled(cur, times) >= need && forall j: nat :: j < times ==> Doubled(cur, j) < need
  }

  lemma DoubleWrapped(n: int)
    requires IsRingSize(n) && n <= MAX_RING
    ensures n == MAX_RING ==> (2 * n) % 0x1_0000_0000 == 0
    ensures n < MAX_RING ==> (2 * n) % 0x1_0000_0000 == 2 * n && IsRingSize(2 * n) && 2 * n <= MAX_RING
  {
    RingSizeBounds(n);
  }

  lemma {:induction false} DoubledIsRingSizeOrZero(cur: u32, times: nat)
    requires IsRingSize(cur as int) && cur as int <= MAX_RING
    ensures Doubled(cur, times) == 0
            || (IsRingSize(Doubled(cur, times) as int) && Doubled(cur, times) as int <= MAX_RING)
  {
    if times > 0 {
      DoubledIsRingSizeOrZero(cur, times - 1);
      var before := Doubled(cur, times - 1);
      if before != 0 {
        DoubleWrapped(before as int);
      }
    }
  }

  lemma DoubledStep(cur: u32, times: nat)
    requires IsRingSize(Doubled(cur, times) as int) && Doubled(cur, times) as int < MAX_RING
    ensures Doubled(cur, times + 1) as int == 2 * Doubled(cur, times) as int
    ensures Doubled(cur, times + 1) as int <= MAX_RING && Doubled(cur, times + 1) > Doubled(cur, times)
  {
    RingSizeBounds(Doubled(cur, times) as int);
    DoubleWrapped(Doubled(cur, times) as int);
  }

  lemma {:induction false} LoopEnds(cur: u32, need: u32, times: nat) returns (end: nat)
    requires IsRingSize(cur as int) && cur as int <= MAX_RING && need as int <= MAX_RING
    requires forall j: nat :: j < times ==> Doubled(cur, j) < need
    requires Doubled(cur, times) != 0
    ensures LoopEndsAfter(cur, need, end)
    decreases MAX_RING - Doubled(cur, times) as int
  {
    DoubledIsRingSizeOrZero(cur, times);
    if Doubled(cur, times) >= need {
      end := times;
    } else {
      DoubledStep(cur, times);
      end := LoopEnds(cur, need, times + 1);
    }
  }

  /**
    Queueing `size` bytes behind `len` queued ones works iff `len + size + 1` is at most 2^31.
    Above that the 32-bit loop either never ends (the size wraps to zero and stays there) or,
    once the sum itself wraps, ends with a buffer that is too small for the copy.
    */
  lemma GrowthIsExact(cur: u32, len: u32, size: u32)
    requires IsRingSize(cur as int) && cur as int <= MAX_RING && len < cur
    ensures var need := ((len as int + size as int + 1) % 0x1_0000_0000) as u32;
            Fits(len as int, size as int) <==>
            exists k: nat :: LoopEndsAfter(cur, need, k) && Doubled(cur, k) as int >= len as int + size as int + 1
  {
    var total := len as int + size as int + 1;
    var need := (total % 0x1_0000_0000) as u32;
    if Fits(len as int, size as int) {
      RingSizeBounds(cur as int);
      var k := LoopEnds(cur, need, 0);
    }
    forall k: nat | LoopEndsAfter(cur, need, k) && Doubled(cur, k) as int >= total
      ensures Fits(len as int, size as int)
    {
      DoubledIsRingSizeOrZero(cur, k);
    }
  }

  /** Which of the two failures it is: the loop ends, too early, iff the wrapped sum is at most 2^31. */
  lemma FailureIsExact(cur: u32, len: u32, size: u32)
    requires IsRingSize(cur as int) && cur as int <= MAX_RING && len < cur && !Fits(len as int, size as int)
    ensures var need := ((len as int + size as int + 1) % 0x1_0000_0000) as u32;
            && ((exists k: nat :: LoopEndsAfter(cur, need, k)) <==> need as int <= MAX_RING)
            && forall k: nat :: LoopEndsAfter(cur, need, k) ==> Doubled(cur, k) as int < len as int + size as int + 1
  {
    var need := ((len as int + size as int + 1) % 0x1_0000_0000) as u32;
    if need as int <= MAX_RING {
      RingSizeBounds(cur as int);
      var k := LoopEnds(cur, need, 0);
    }
    forall k: nat ensures Doubled(cur, k) as int <= MAX_RING {
      DoubledIsRingSizeOrZero(cur, k);
    }
  }

  /** A write of 2^31 bytes to an empty ring of 8 KiB: however often the size is doubled, the loop goes on. */
  lemma HugeWriteNeverEnds(times: nat)
    ensures !Fits(0, 0x8000_0000) && !LoopEndsAfter(ASYNC_BUFSIZE, 0x8000_0001, times)
  {
    DoubledIsRingSizeOrZero(ASYNC_BUFSIZE, times);
  }

  /** A write of 2^32 - 1 bytes to the same ring: the sum wraps to zero, and the size stays at 8 KiB. */
  lemma WrappedSizeIsTooSmall()
    ensures !Fits(0, 0xFFFF_FFFF) && LoopEndsAfter(ASYNC_BUFSIZE, 0, 0) && (0xFFFF_FFFF + 1) % 0x1_0000_0000 == 0
    ensures Doubled(ASYNC_BUFSIZE, 0) < 0xFFFF_FFFF
  {
  }

  // ---------------------------------------------------------------- the buffer

  /** mem_copy between two different arrays. */
  method MemCopy(dst: array<byte>, at: int, src: array<byte>, from: int, count: int)
    requires dst != src
    requires 0 <= count && 0 <= at && at + count <= dst.Length && 0 <= from && from + count <= src.Length
    modifies dst
    ensures forall k :: 0 <= k < dst.Length ==>
              dst[k] == if at <= k < at + count then old(src[from + k - at]) else old(dst[k])
  {
    forall k | at <= k < at + count {
      dst[k] := src[from + k - at];
    }
  }

  /** `(pos + n) % size` for a step that passes the end of the buffer at most once. */
  method Advance(pos: u32, n: u32, size: u32) returns (next: u32)
    requires pos < size && n <= size && size as int <= MAX_RING
    ensures next as int == Wrap(pos as int + n as int, size as int)
  {
    WrapIsModulo(pos as int + n as int, size as int);
    next := (pos + n) % size;
  }

  lemma WrapIsModulo(i: int, size: int)
    requires 0 <= i < 2 * size
    ensures i % size == Wrap(i, size)
  {
    if i >= size {
      assert i == 1 * size + (i - size);
    }
  }

  /** Bytes put behind the queue, from the write position on, extend it. */
  lemma Appended(before: seq<byte>, after: seq<byte>, readPos: int, writePos: int, next: int, data: seq<byte>)
    requires |before| == |after| && 0 <= readPos < |before| && 0 <= writePos < |before|
    requires RingLen(|before|, readPos, writePos) + |data| < |before|
    requires next == Wrap(writePos + |data|, |before|)
    requires forall k {:trigger data[k]} :: 0 <= k < |data| ==> after[Wrap(writePos + k, |before|)] == data[k]
    requires var queue := RingContents(before, readPos, writePos);
             forall k {:trigger queue[k]} :: 0 <= k < |queue| ==> after[Wrap(readPos + k, |before|)] == queue[k]
    ensures 0 <= next < |after|
    ensures RingContents(after, readPos, next) == RingContents(before, readPos, writePos) + data
  {
    var queue, result := RingContents(before, readPos, writePos), RingContents(after, readPos, next);
    assert |result| == |queue| + |data|;
    forall k | 0 <= k < |result| ensures result[k] == (queue + data)[k] {
      if k >= |queue| {
        assert data[k - |queue|] == after[Wrap(writePos + (k - |queue|), |before|)];
      } else {
        assert queue[k] == after[Wrap(readPos + k, |before|)];
      }
    }
  }

  /** What buffer_ptrs reports: two stretches of the buffer, either of which may be empty. */
  datatype Buffers = Buffers(start1: u32, len1: u32, start2: u32, len2: u32)

  class AsyncIo {
    var buffer: array<byte>
    var bufferSize: u32
    var readPos: u32
    var writePos: u32

    ghost predicate Valid()
      reads this
    {
      && buffer.Length == bufferSize as int
      && IsRingSize(buffer.Length) && buffer.Length <= MAX_RING
      && 0 < buffer.Length
      && readPos < bufferSize && writePos < bufferSize
    }

    /** The queue that the ring represents. */
    ghost function Contents(): (r: seq<byte>)
      requires Valid()
      reads this, buffer
    {
      RingContents(buffer[..], readPos as int, writePos as int)
    }

    /** aio_new */
    constructor ()
      ensures Valid() && fresh(buffer)
      ensures Contents() == [] && bufferSize == ASYNC_BUFSIZE
    {
      buffer := new byte[ASYNC_BUFSIZE];
      bufferSize := ASYNC_BUFSIZE;
      readPos := 0;
      writePos := 0;
    }

    /** The queue is the first stretch followed by the second. */
    method BufferPtrs() returns (b: Buffers)
      requires Valid()
      ensures b.start1 as int + b.len1 as int <= buffer.Length && b.start2 as int + b.len2 as int <= buffer.Length
      ensures |Contents()| == b.len1 as int + b.len2 as int
      ensures forall k :: 0 <= k < b.len1 as int ==> Contents()[k] == buffer[b.start1 as int + k]
      ensures forall k :: b.len1 as int <= k < |Contents()| ==>
                Contents()[k] == buffer[b.start2 as int + k - b.len1 as int]
    {
      b := Buffers(0, 0, 0, 0);
      if readPos < writePos {
        b := Buffers(readPos, writePos - readPos, 0, 0);
      } else if readPos > writePos {
        b := Buffers(readPos, bufferSize - readPos, 0, writePos);
      }
    }

    method BufferLen() returns (n: u32)
      requires Valid()
      ensures n as int == |Contents()| && n < bufferSize
    {
      if writePos >= readPos {
        n := writePos - readPos;
      } else {
        n := bufferSize + writePos - readPos;
      }
    }

    /** The two copies into the local buffer, each clipped to the room that is left there. */
    method CopyOut(localBuffer: array<byte>) returns (localBufferLen: u32)
      requires Valid()
      requires localBuffer != buffer && localBuffer.Length == ASYNC_LOCAL_BUFSIZE as int
      modifies localBuffer
      ensures localBufferLen as int == DrainLen(|Contents()|)
      ensures forall k :: 0 <= k < localBufferLen as int ==> localBuffer[k] == Contents()[k]
    {
      ghost var queue := Contents();
      var b := BufferPtrs();
      localBufferLen := 0;
      if b.len1 > ASYNC_LOCAL_BUFSIZE - localBufferLen {
        b := b.(len1 := ASYNC_LOCAL_BUFSIZE - localBufferLen);
      }
      MemCopy(localBuffer, localBufferLen as int, buffer, b.start1 as int, b.len1 as int);
      localBufferLen := localBufferLen + b.len1;
      if b.len2 > ASYNC_LOCAL_BUFSIZE - localBufferLen {
        b := b.(len2 := ASYNC_LOCAL_BUFSIZE - localBufferLen);
      }
      MemCopy(localBuffer, localBufferLen as int, buffer, b.start2 as int, b.len2 as int);
      localBufferLen := localBufferLen + b.len2;
      assert queue == Contents();
    }

    /**
      The part of the writer's loop that runs under the lock: move as much as fits into the
      local buffer and advance the read position.
      */
    method Drain(localBuffer: array<byte>) returns (localBufferLen: u32)
      requires Valid()
      requires localBuffer != buffer && localBuffer.Length == ASYNC_LOCAL_BUFSIZE as int
      modifies `readPos, localBuffer
      ensures Valid()
      ensures localBufferLen as int == DrainLen(|old(Contents())|)
      ensures localBuffer[..localBufferLen] == old(Contents())[..localBufferLen]
      ensures Contents() == old(Contents())[localBufferLen..]
    {
      localBufferLen := CopyOut(localBuffer);
      assert Contents() == old(Contents());
      readPos := Advance(readPos, localBufferLen, bufferSize);
    }

    /** The bytes fit: at most two copies, the second one to the start of the buffer. */
    method WriteInPlace(data: array<byte>, size: u32)
      requires Valid() && data != buffer && size as int <= data.Length
      requires size as int < bufferSize as int - |Contents()|
      modifies `writePos, buffer
      ensures Valid()
      ensures Contents() == old(Contents()) + old(data[..size])
    {
      ghost var before, at, bytes := buffer[..], writePos as int, data[..size];
      var remaining := size;
      var from: u32 := 0;
      var remainingContiguous := bufferSize - writePos;
      if remaining > remainingContiguous {
        MemCopy(buffer, writePos as int, data, 0, remainingContiguous as int);
        remaining := remaining - remainingContiguous;
        from := remainingContiguous;
        writePos := 0;
      }
      MemCopy(buffer, writePos as int, data, from as int, remaining as int);
      writePos := Advance(writePos, remaining, bufferSize);
      Appended(before, buffer[..], readPos as int, at, writePos as int, bytes);
    }

    /** The bytes need a bigger buffer: the queue moves to the front of a new one. */
    method WriteGrowing(data: array<byte>, size: u32)
      requires Valid() && data != buffer && size as int <= data.Length
      requires size as int >= bufferSize as int - |Contents()|
      requires Fits(|Contents()|, size as int)
      modifies this
      ensures Valid() && fresh(buffer)
      ensures Contents() == old(Contents()) + old(data[..size])
      ensures bufferSize > old(bufferSize)
      ensures bufferSize as int / 2 < |old(Contents())| + size as int + 1
    {
      ghost var queue := Contents();
      var len := BufferLen();
      var newWritten := len + size + 1;
      var nextSize := NextBufferSize(bufferSize, newWritten);
      var nextBuffer := new byte[nextSize as int];
      var b := BufferPtrs();
      MemCopy(nextBuffer, 0, buffer, b.start1 as int, b.len1 as int);
      var nextLen := b.len1;
      MemCopy(nextBuffer, nextLen as int, buffer, b.start2 as int, b.len2 as int);
      nextLen := nextLen + b.len2;
      assert forall k :: 0 <= k < nextLen as int ==> nextBuffer[k] == queue[k];
      MemCopy(nextBuffer, nextLen as int, data, 0, size as int);
      nextLen := nextLen + size;
      assert nextBuffer[..nextLen] == queue + data[..size];
      StraightContents(nextBuffer[..], nextLen as int);
      buffer := nextBuffer;
      bufferSize := nextSize;
      readPos := 0;
      writePos := nextLen;
    }

    /** aio_write_unlocked: append to the queue, growing the buffer only when it would become full. */
    method WriteUnlocked(data: array<byte>, size: u32)
      requires Valid() && data != buffer && size as int <= data.Length
      requires Fits(|Contents()|, size as int)
      modifies this, buffer
      ensures Valid() && (buffer == old(buffer) || fresh(buffer))
      ensures Contents() == old(Contents()) + old(data[..size])
      ensures bufferSize == old(bufferSize) <==> size as int < old(bufferSize) as int - |old(Contents())|
      ensures bufferSize >= old(bufferSize)
      ensures bufferSize != old(bufferSize) ==> bufferSize as int / 2 < |Contents()| + 1
    {
      var len := BufferLen();
      var remaining := bufferSize - len;
      if size < remaining {
        WriteInPlace(data, size);
      } else {
        WriteGrowing(data, size);
      }
    }
  }
}
