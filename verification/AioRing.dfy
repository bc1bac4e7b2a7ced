/**
  The growable ring buffer behind the asynchronous writer: a read and a write cursor into a
  power-of-two sized allocation that is never completely filled. The value type Ring is what the
  concurrent protocol in AioProtocol reasons about; class AsyncBuffer is the in-place code, and
  each of its methods is tied to the Wrote and Took relations between ring values.
*/
module AioRing {
  import opened Bytes

  const ASYNC_BUFSIZE: nat := 8192
  const ASYNC_LOCAL_BUFSIZE: nat := 65536
  const MAX_CAPACITY: nat := 0x8000_0000

  /** The result of an unsigned int operation. */
  function U32(x: int): nat {
    x % U32_RANGE
  }

  /** 8192 doubled any number of times. */
  predicate IsCapacity(n: nat) {
    n == ASYNC_BUFSIZE || (n > ASYNC_BUFSIZE && n % 2 == 0 && IsCapacity(n / 2))
  }

  datatype Ring = Ring(cells: seq<byte>, readPos: nat, writePos: nat) {
    ghost predicate CursorsInside() {
      readPos < |cells| && writePos < |cells|
    }

    /** Both cursors are inside the allocation, whose size the 32-bit fields can hold. */
    ghost predicate Valid() {
      CursorsInside() && IsCapacity(|cells|) && |cells| <= MAX_CAPACITY
    }

    /** The queued bytes, oldest first. */
    ghost function Contents(): (s: seq<byte>)
      requires CursorsInside()
    {
      seq(Len(), i requires 0 <= i < Len() => cells[Advance(readPos, i, |cells|)])
    }

    /** The number of cells from the read cursor forward to the write cursor. */
    ghost function Len(): (n: nat)
      requires CursorsInside()
      ensures n < |cells|
    {
      if readPos <= writePos then writePos - readPos else |cells| + writePos - readPos
    }
  }

  /** What doubling the capacity until it reaches need arrives at, without any wrap-around. */
  function GrownCapacity(cur: nat, need: nat): nat
    requires cur > 0
    decreases need - cur
  {
    if cur >= need then cur else GrownCapacity(2 * cur, need)
  }

  /** One aio_write_unlocked of data takes ring r to r2. */
  ghost predicate Wrote(r: Ring, data: seq<byte>, r2: Ring) {
    && r.Valid() && r2.Valid()
    && r2.Contents() == r.Contents() + data
    && if |data| < |r.cells| - |r.Contents()|
       then |r2.cells| == |r.cells| && r2.readPos == r.readPos
       else r2.readPos == 0 && |r2.cells| == GrownCapacity(|r.cells|, |r.Contents()| + |data| + 1)
  }

  /** The worker's locked section takes chunk out of ring r and leaves r2. */
  ghost predicate Took(r: Ring, chunk: seq<byte>, r2: Ring) {
    && r.Valid() && r2.Valid()
    && chunk == r.Contents()[..Min(|r.Contents()|, ASYNC_LOCAL_BUFSIZE)]
    && r.Contents() == chunk + r2.Contents()
    && r2.cells == r.cells
  }

  /** A ring always has a free cell, so empty and full cannot be confused. */
  lemma NeverFull(r: Ring)
    requires r.CursorsInside()
    ensures |r.Contents()| < |r.cells|
    ensures |r.Contents()| == 0 <==> r.readPos == r.writePos
    ensures |r.Contents()| == if r.writePos >= r.readPos then r.writePos - r.readPos
                              else |r.cells| + r.writePos - r.readPos
  {
  }

  /** Growing stops at a capacity that holds need and is less than twice need. */
  lemma {:induction false} GrownCapacityBounds(cur: nat, need: nat)
    requires IsCapacity(cur) && cur <= MAX_CAPACITY && need <= MAX_CAPACITY
    ensures IsCapacity(GrownCapacity(cur, need))
    ensures GrownCapacity(cur, need) <= MAX_CAPACITY
    ensures need <= GrownCapacity(cur, need)
    ensures cur < need ==> GrownCapacity(cur, need) < 2 * need
    decreases need - cur
  {
    hide IsCapacity;
    if cur < need {
      CapacityDoubleFits(cur);
      GrownCapacityBounds(2 * cur, need);
    }
  }

  /** A capacity below 2^31 can be doubled without passing 2^31. */
  lemma {:induction false} CapacityDoubleFits(cur: nat)
    requires IsCapacity(cur) && cur < MAX_CAPACITY
    ensures 0 < 2 * cur <= MAX_CAPACITY && IsCapacity(2 * cur)
  {
    assert IsCapacity(0x8000);
    assert IsCapacity(0x2_0000);
    assert IsCapacity(0x8_0000);
    assert IsCapacity(0x20_0000);
    assert IsCapacity(0x80_0000);
    assert IsCapacity(0x200_0000);
    assert IsCapacity(0x800_0000);
    assert IsCapacity(0x2000_0000);
    CapacityDoubleFitsBelow(cur, 0x4000_0000);
  }

  lemma {:induction false} CapacityDoubleFitsBelow(cur: nat, bound: nat)
    requires IsCapacity(cur) && IsCapacity(bound) && cur < 2 * bound
    ensures cur <= bound
  {
    if cur > ASYNC_BUFSIZE && bound > ASYNC_BUFSIZE {
      CapacityDoubleFitsBelow(cur / 2, bound / 2);
    }
  }

  /** The k-th value of next_buffer_size's cur_size in 32-bit arithmetic. */
  function Doubled32(cur: nat, k: nat): nat
    decreases k
  {
    if k == 0 then cur else Doubled32(U32(cur * 2), k - 1)
  }

  /** With 32-bit wrap-around the doubling loop ends exactly when the needed size is at most 2^31. */
  lemma NextBufferSizeTerminates(cur: nat, need: nat)
    requires IsCapacity(cur) && cur <= MAX_CAPACITY && need < U32_RANGE
    ensures (exists k :: Doubled32(cur, k) >= need) <==> need <= MAX_CAPACITY
  {
    if need <= MAX_CAPACITY {
      var k := DoublingReaches(cur);
    } else {
      forall k: nat
        ensures Doubled32(cur, k) < need
      {
        DoublingStaysBelow(cur, k);
      }
    }
  }

  /**
    Whatever aio_write_unlocked needs, its unsigned sum included: some value of the loop ends it and holds
    the need exactly up to 2^31. Above that and below 2^32 no value ends the loop; from 2^32 on the sum
    has wrapped, and a value that ends the loop is too small.
  */
  lemma GrowthSufficesIff(cur: nat, need: nat)
    requires IsCapacity(cur) && cur <= MAX_CAPACITY
    ensures (exists k :: Doubled32(cur, k) >= U32(need) && Doubled32(cur, k) >= need) <==> need <= MAX_CAPACITY
    ensures MAX_CAPACITY < need < U32_RANGE ==> forall k :: Doubled32(cur, k) < U32(need)
    ensures need >= U32_RANGE ==> forall k :: Doubled32(cur, k) < need
  {
    if need <= MAX_CAPACITY {
      var k := DoublingReaches(cur);
    } else {
      forall k: nat
        ensures Doubled32(cur, k) <= MAX_CAPACITY
      {
        DoublingStaysBelow(cur, k);
      }
    }
  }

  lemma {:induction false} DoublingReaches(cur: nat) returns (k: nat)
    requires IsCapacity(cur) && cur <= MAX_CAPACITY
    ensures Doubled32(cur, k) == MAX_CAPACITY
    decreases MAX_CAPACITY - cur
  {
    hide IsCapacity;
    if cur == MAX_CAPACITY {
      k := 0;
    } else {
      CapacityDoubleFits(cur);
      k := DoublingReaches(2 * cur);
      k := k + 1;
    }
  }

  lemma {:induction false} DoublingStaysBelow(cur: nat, k: nat)
    requires (IsCapacity(cur) && cur <= MAX_CAPACITY) || cur == 0
    ensures Doubled32(cur, k) <= MAX_CAPACITY
    decreases k
  {
    hide IsCapacity;
    if k > 0 {
      if 0 < cur < MAX_CAPACITY {
        CapacityDoubleFits(cur);
      }
      DoublingStaysBelow(U32(cur * 2), k - 1);
    }
  }

  /** One cursor step past the end wraps once. */
  function Advance(pos: nat, step: nat, n: nat): (r: nat)
    requires pos < n && step <= n
    ensures r < n
  {
    if pos + step < n then pos + step else pos + step - n
  }

  lemma AdvanceIsModular(pos: nat, step: nat, n: nat)
    requires pos < n <= MAX_CAPACITY && step <= n
    ensures U32(pos + step) % n == Advance(pos, step, n)
  {
    ModOnce(pos + step, n);
    ModOnce(pos + step, U32_RANGE);
  }

  lemma ModOnce(x: nat, n: nat)
    requires x < 2 * n
    ensures x % n == if x < n then x else x - n
  {
    if x >= n {
      assert x == n + (x - n);
    }
  }

  /** The cells after laying data down from the write cursor on, around the end if need be. */
  ghost function WrittenCells(r: Ring, data: seq<byte>): (c: seq<byte>)
    requires r.CursorsInside() && |data| < |r.cells|
    ensures |c| == |r.cells|
  {
    var k := |r.cells| - r.writePos;
    if |data| <= k then Overlay(r.cells, r.writePos, data)
    else Overlay(Overlay(r.cells, r.writePos, data[..k]), 0, data[k..])
  }

  /** Laying data down from the write cursor appends it to the queue. */
  lemma WriteInPlaceContents(r: Ring, data: seq<byte>)
    requires r.CursorsInside() && |data| < |r.cells| - |r.Contents()|
    ensures Ring(WrittenCells(r, data), r.readPos, Advance(r.writePos, |data|, |r.cells|)).Contents()
         == r.Contents() + data
  {
    NeverFull(r);
    if |data| > |r.cells| - r.writePos {
      WrappingWrite(r, data);
    } else {
      FlatWrite(r, data);
    }
  }

  lemma WrappingWrite(r: Ring, data: seq<byte>)
    requires r.CursorsInside() && r.readPos <= r.writePos
    requires |r.cells| - r.writePos < |data| < |r.cells| - r.writePos + r.readPos
    ensures Ring(WrittenCells(r, data), r.readPos, |data| - (|r.cells| - r.writePos)).Contents()
         == r.Contents() + data
  {
    var k := |r.cells| - r.writePos;
    assert data == data[..k] + data[k..];
    assert WrittenCells(r, data)[r.readPos..] == r.cells[r.readPos..r.writePos] + data[..k];
    assert WrittenCells(r, data)[..|data| - k] == data[k..];
  }

  lemma FlatWrite(r: Ring, data: seq<byte>)
    requires r.CursorsInside() && |data| <= |r.cells| - r.writePos
    requires if r.readPos <= r.writePos then |data| < |r.cells| - r.writePos + r.readPos
             else |data| < r.readPos - r.writePos
    ensures Ring(WrittenCells(r, data), r.readPos, Advance(r.writePos, |data|, |r.cells|)).Contents()
         == r.Contents() + data
  {
    var c, w, p := WrittenCells(r, data), r.writePos, r.readPos;
    if p <= w {
      assert c[p..w + |data|] == r.cells[p..w] + data;
      assert w + |data| == |r.cells| ==> c[p..] + c[..0] == c[p..w + |data|];
    } else {
      assert c[p..] == r.cells[p..];
      assert c[..w + |data|] == r.cells[..w] + data;
    }
  }

  /** Filling a bounded buffer from two stretches takes a prefix of their concatenation. */
  lemma PrefixOfTwo(s1: seq<byte>, s2: seq<byte>, room: nat)
    ensures var len1 := Min(|s1|, room);
            s1[..len1] + s2[..Min(|s2|, room - len1)] == (s1 + s2)[..Min(|s1 + s2|, room)]
  {
  }

  /** Advancing the read cursor over the first cells of the queue drops exactly those bytes. */
  lemma TakeChunkContents(r: Ring, m: nat, r2: Ring)
    requires r.CursorsInside() && m <= |r.Contents()|
    requires m <= |r.cells| && r2 == Ring(r.cells, Advance(r.readPos, m, |r.cells|), r.writePos)
    ensures r2.CursorsInside() && r2.Contents() == r.Contents()[m..]
  {
    NeverFull(r);
    if r.readPos <= r.writePos {
      assert r2.Contents() == r.Contents()[m..];
    } else if r.readPos + m < |r.cells| {
      assert r2.Contents() == r.Contents()[m..];
    } else {
      assert r.Contents()[m..] == r.cells[..r.writePos][r.readPos + m - |r.cells|..];
      assert r2.Contents() == r.Contents()[m..];
    }
  }

  /** The one or two stretches of cells that buffer_ptrs finds to be in use. */
  datatype Buffers = Buffers(start1: nat, len1: nat, start2: nat, len2: nat)

  class AsyncBuffer {
    var buffer: array<byte>
    var bufferSize: nat
    var readPos: nat
    var writePos: nat
    ghost var peak: nat // longest queue so far

    ghost function Value(): Ring
      reads this, buffer
    {
      Ring(buffer[..], readPos, writePos)
    }

    ghost predicate Valid()
      reads this, buffer
    {
      && bufferSize == buffer.Length
      && Value().Valid()
      && |Value().Contents()| <= peak
      && (bufferSize == ASYNC_BUFSIZE || bufferSize < 2 * (peak + 1))
    }

    ghost function Contents(): seq<byte>
      reads this, buffer
      requires Valid()
    {
      Value().Contents()
    }

    constructor ()
      ensures Valid() && fresh(buffer)
      ensures Contents() == [] && bufferSize == ASYNC_BUFSIZE && peak == 0
    {
      buffer := new byte[ASYNC_BUFSIZE](_ => 0);
      bufferSize, readPos, writePos, peak := ASYNC_BUFSIZE, 0, 0, 0;
    }

    method BufferPtrs() returns (b: Buffers)
      requires bufferSize == buffer.Length && Value().CursorsInside()
      ensures b.start1 + b.len1 <= bufferSize && b.start2 + b.len2 <= bufferSize
      ensures buffer[b.start1..b.start1 + b.len1] + buffer[b.start2..b.start2 + b.len2] == Value().Contents()
      ensures b.len1 > 0 <==> readPos != writePos
      ensures b.len1 + b.len2 < bufferSize
      ensures b.start1 == readPos
      ensures b.len2 > 0 ==> b.start2 == 0 && b.start1 + b.len1 == bufferSize
    {
      if readPos < writePos {
        b := Buffers(readPos, writePos - readPos, 0, 0);
      } else if readPos > writePos {
        b := Buffers(readPos, bufferSize - readPos, 0, writePos);
      } else {
        b := Buffers(readPos, 0, 0, 0);
      }
    }

    method BufferLen() returns (len: nat)
      requires Valid()
      ensures len == |Contents()|
    {
      if writePos >= readPos {
        len := writePos - readPos;
      } else {
        len := U32(bufferSize + writePos - readPos);
      }
    }

    static method NextBufferSize(curSize: nat, needSize: nat) returns (size: nat)
      requires IsCapacity(curSize) && curSize <= MAX_CAPACITY
      requires needSize <= MAX_CAPACITY
      ensures size == GrownCapacity(curSize, needSize)
    {
      assert curSize > 0;
      hide IsCapacity;
      size := curSize;
      while size < needSize
        invariant size > 0
        invariant IsCapacity(size) && size <= MAX_CAPACITY
        invariant GrownCapacity(size, needSize) == GrownCapacity(curSize, needSize)
        decreases needSize - size
      {
        CapacityDoubleFits(size);
        size := U32(size * 2);
      }
    }

    /** Append data, growing the allocation when it would otherwise be filled. */
    method WriteUnlocked(data: seq<byte>)
      requires Valid()
      requires |Contents()| + |data| + 1 <= MAX_CAPACITY
      modifies this, buffer
      ensures Valid() && (buffer == old(buffer) || fresh(buffer))
      ensures Wrote(old(Value()), data, Value())
      ensures peak == if |Contents()| > old(peak) then |Contents()| else old(peak)
    {
      hide IsCapacity, Ring.Contents;
      NeverFull(Value());
      var len := BufferLen();
      var remaining := bufferSize - len;
      peak := if len + |data| > peak then len + |data| else peak;
      if |data| < remaining {
        WriteInPlace(data);
      } else {
        GrownCapacityBounds(bufferSize, len + |data| + 1);
        GrowAndWrite(data, len);
      }
    }

    method WriteInPlace(data: seq<byte>)
      requires bufferSize == buffer.Length <= MAX_CAPACITY && Value().CursorsInside()
      requires |data| < bufferSize - |Value().Contents()|
      modifies this`writePos, buffer
      ensures Value().CursorsInside()
      ensures Value().Contents() == old(Value().Contents()) + data
    {
      hide Ring.Contents;
      ghost var was := Value();
      NeverFull(was);
      WriteInPlaceContents(was, data);
      var remainingContiguous := bufferSize - writePos;
      if |data| > remainingContiguous {
        var first, rest := data[..remainingContiguous], data[remainingContiguous..];
        MemCopy(buffer, writePos, first);
        ghost var cells := buffer[..];
        writePos := 0;
        MemCopy(buffer, writePos, rest);
        assert buffer[..] == Overlay(cells, 0, rest) == WrittenCells(was, data);
        AdvanceIsModular(0, |rest|, bufferSize);
        assert writePos + |rest| == |rest|;
        writePos := U32(writePos + |rest|) % bufferSize;
      } else {
        MemCopy(buffer, writePos, data);
        assert buffer[..] == WrittenCells(was, data);
        AdvanceIsModular(writePos, |data|, bufferSize);
        writePos := U32(writePos + |data|) % bufferSize;
      }
    }

    /** Replace the allocation: the queue moves to the front of a larger one, data after it. */
    method GrowAndWrite(data: seq<byte>, len: nat)
      requires bufferSize == buffer.Length && Value().Valid()
      requires len == |Value().Contents()|
      requires bufferSize <= len + |data| < MAX_CAPACITY
      modifies this`buffer, this`bufferSize, this`readPos, this`writePos
      ensures fresh(buffer) && bufferSize == buffer.Length && Value().CursorsInside()
      ensures Value().Contents() == old(Value().Contents()) + data
      ensures readPos == 0 && bufferSize == GrownCapacity(old(bufferSize), len + |data| + 1)
      ensures bufferSize < 2 * (len + |data| + 1)
    {
      hide IsCapacity, GrownCapacity;
      NeverFull(Value());
      var nextSize := NextBufferSize(bufferSize, U32(len + |data| + 1));
      GrownCapacityBounds(bufferSize, len + |data| + 1);
      ghost var queued := Value().Contents();
      var next := new byte[nextSize](_ => 0);
      CopyQueue(next);
      MemCopy(next, len, data);
      assert next[..len + |data|] == queued + data;
      buffer := next;
      bufferSize, readPos, writePos := nextSize, 0, len + |data|;
    }

    /** The copies of the one or two stretches in use to the front of next. */
    method CopyQueue(next: array<byte>)
      requires bufferSize == buffer.Length && Value().CursorsInside() && next != buffer
      requires |Value().Contents()| <= next.Length
      modifies next
      ensures next[..|Value().Contents()|] == Value().Contents()
    {
      if readPos < writePos {
        MemCopy(next, 0, buffer[readPos..writePos]);
      } else if readPos > writePos {
        MemCopy(next, 0, buffer[readPos..]);
        MemCopy(next, bufferSize - readPos, buffer[..writePos]);
      }
    }

    /** The copies into the worker's local buffer; the queue is only read. */
    method CopyOut(local: array<byte>) returns (n: nat)
      requires bufferSize == buffer.Length && Value().CursorsInside()
      requires local != buffer
      modifies local
      ensures n == Min(|Value().Contents()|, local.Length)
      ensures local[..n] == Value().Contents()[..n]
    {
      hide IsCapacity, Ring.Contents, Overlay;
      NeverFull(Value());
      var b := BufferPtrs();
      var len1 := Min(b.len1, local.Length);
      var len2 := Min(b.len2, local.Length - len1);
      var s1, s2 := buffer[b.start1..b.start1 + b.len1], buffer[b.start2..b.start2 + b.len2];
      PrefixOfTwo(s1, s2, local.Length);
      var part1, part2 := s1[..len1], s2[..len2];
      OverlayTwice(local[..], 0, part1, part2);
      MemCopy(local, 0, part1);
      MemCopy(local, len1, part2);
      n := len1 + len2;
    }

    /** The worker's locked section: move at most one local buffer of bytes out of the queue. */
    method TakeChunk(local: array<byte>) returns (n: nat)
      requires Valid() && local.Length == ASYNC_LOCAL_BUFSIZE && local != buffer
      requires readPos != writePos
      modifies this`readPos, local
      ensures Valid() && 0 < n <= local.Length
      ensures Took(old(Value()), local[..n], Value())
    {
      hide IsCapacity, Ring.Contents;
      ghost var was := Value();
      NeverFull(was);
      n := CopyOut(local);
      ghost var r2 := Advance(readPos, n, bufferSize);
      TakeChunkContents(was, n, Ring(buffer[..], r2, writePos));
      AdvanceIsModular(readPos, n, bufferSize);
      readPos := U32(readPos + n) % bufferSize;
    }
  }
}
