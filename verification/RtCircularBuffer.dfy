/**
 The byte FIFO that is filled from another circular buffer. Pointers are indices into one flat
 memory; the circular-addressing registers of the core delimit the buffer that copies read from.
 */
module RtCircularBuffers {
  import opened Words

  datatype Status = Success | OutOfResources | Underrun

  /** `count` bytes read from `start` on, wrapping from `end` to `begin`. */
  ghost function Circular(memory: seq<Byte>, begin: nat, end: nat, start: nat, count: nat): (bytes: seq<Byte>)
    requires begin <= start < end <= |memory| && count <= end - begin
    ensures |bytes| == count
  {
    seq(count, i requires 0 <= i < count => memory[begin + Place(start - begin, i, end - begin)])
  }

  /** The i-th place after a position on a ring of n cells. */
  function Place(from: nat, i: nat, n: nat): nat
    requires from < n && i <= n
  {
    Wrap(from + i, n)
  }

  /** Position of the oldest of `count` elements that end before `write`. */
  function Oldest(n: nat, write: nat, count: nat): nat
    requires write < n && count <= n
  {
    Wrap(n + write - count, n)
  }

  /** The queue that lies in [base, base + n) and ends before the address `writePtr`. */
  ghost function Stored(memory: seq<Byte>, base: nat, n: nat, writePtr: nat, count: nat): (q: seq<Byte>)
    requires base <= writePtr < base + n <= |memory| && count <= n
    ensures |q| == count
  {
    var oldest := Oldest(n, writePtr - base, count);
    seq(count, i requires 0 <= i < count => memory[base + Place(oldest, i, n)])
  }

  /** Where the write pointer stands after `count` more bytes. */
  function Advanced(base: nat, n: nat, writePtr: nat, count: nat): nat
    requires base <= writePtr < base + n && count <= n
  {
    base + Wrap(writePtr - base + count, n)
  }

  /** Memory after writing `source` at `out`. */
  ghost function Copied(memory: seq<Byte>, out: nat, source: seq<Byte>): (after: seq<Byte>)
    requires out + |source| <= |memory|
    ensures |after| == |memory|
    ensures forall a {:trigger after[a]} :: 0 <= a < |memory| ==>
              after[a] == if out <= a < out + |source| then source[a - out] else memory[a]
  {
    memory[..out] + source + memory[out + |source|..]
  }

  /** Nothing outside [base, base + n) differs. */
  ghost predicate SameOutside(before: seq<Byte>, after: seq<Byte>, base: nat, n: nat) {
    |before| == |after| && forall a {:trigger after[a]} ::
      0 <= a < |before| && !(base <= a < base + n) ==> after[a] == before[a]
  }

  /** The chunk fills the places behind `write`; all other places of the ring are as before. */
  ghost predicate Filled(before: seq<Byte>, after: seq<Byte>, base: nat, n: nat, write: nat, chunk: seq<Byte>)
    requires write < n && base + n <= |before| == |after|
  {
    forall i {:trigger Place(write, i, n)} :: 0 <= i < n ==>
      after[base + Place(write, i, n)] == if i < |chunk| then chunk[i] else before[base + Place(write, i, n)]
  }

  /** Overwriting the free cells behind the queue, in ring order, appends to it. */
  lemma Appended(before: seq<Byte>, after: seq<Byte>, base: nat, n: nat, writePtr: nat, count: nat,
                 chunk: seq<Byte>, newPtr: nat, newCount: nat)
    requires base <= writePtr < base + n <= |before| == |after|
    requires newCount == count + |chunk| <= n && newPtr == Advanced(base, n, writePtr, |chunk|)
    requires Filled(before, after, base, n, writePtr - base, chunk)
    ensures Stored(after, base, n, newPtr, newCount) == Stored(before, base, n, writePtr, count) + chunk
  {
    var queue := Stored(before, base, n, writePtr, count);
    forall i | 0 <= i < newCount
      ensures Stored(after, base, n, newPtr, newCount)[i] == (queue + chunk)[i]
    {
      if i < count {
        OldKept(before, after, base, n, writePtr, count, chunk, newPtr, newCount, i);
      } else {
        NewBehind(before, after, base, n, writePtr, count, chunk, newPtr, newCount, i);
      }
    }
  }

  lemma OldKept(before: seq<Byte>, after: seq<Byte>, base: nat, n: nat, writePtr: nat, count: nat,
                chunk: seq<Byte>, newPtr: nat, newCount: nat, i: nat)
    requires base <= writePtr < base + n <= |before| == |after| && i < count
    requires newCount == count + |chunk| <= n && newPtr == Advanced(base, n, writePtr, |chunk|)
    requires Filled(before, after, base, n, writePtr - base, chunk)
    ensures Stored(after, base, n, newPtr, newCount)[i] == Stored(before, base, n, writePtr, count)[i]
  {
    OldPlace(n, writePtr - base, count, |chunk|, i);
  }

  lemma NewBehind(before: seq<Byte>, after: seq<Byte>, base: nat, n: nat, writePtr: nat, count: nat,
                  chunk: seq<Byte>, newPtr: nat, newCount: nat, i: nat)
    requires base <= writePtr < base + n <= |before| == |after| && count <= i < newCount
    requires newCount == count + |chunk| <= n && newPtr == Advanced(base, n, writePtr, |chunk|)
    requires Filled(before, after, base, n, writePtr - base, chunk)
    ensures Stored(after, base, n, newPtr, newCount)[i] == chunk[i - count]
  {
    NewPlace(n, writePtr - base, count, |chunk|, i);
  }

  /** Seen from the advanced position, an old element is where it was, which is not behind `write`. */
  lemma OldPlace(n: nat, write: nat, count: nat, k: nat, i: nat)
    requires write < n && count + k <= n && i < count
    ensures Place(Oldest(n, Wrap(write + k, n), count + k), i, n) == Place(write, n - count + i, n)
    ensures Place(Oldest(n, write, count), i, n) == Place(write, n - count + i, n)
  {
  }

  lemma NewPlace(n: nat, write: nat, count: nat, k: nat, i: nat)
    requires write < n && count + k <= n && count <= i < count + k
    ensures Place(Oldest(n, Wrap(write + k, n), count + k), i, n) == Place(write, i - count, n)
  {
  }

  lemma PushedLinear(memory: seq<Byte>, base: nat, n: nat, writePtr: nat, count: nat, chunk: seq<Byte>,
                     newPtr: nat, newCount: nat)
    requires base <= writePtr < base + n <= |memory|
    requires newCount == count + |chunk| <= n && writePtr + |chunk| <= base + n
    requires newPtr == Advanced(base, n, writePtr, |chunk|)
    ensures var after := Copied(memory, writePtr, chunk);
            && SameOutside(memory, after, base, n)
            && Stored(after, base, n, newPtr, newCount) == Stored(memory, base, n, writePtr, count) + chunk
  {
    Appended(memory, Copied(memory, writePtr, chunk), base, n, writePtr, count, chunk, newPtr, newCount);
  }

  lemma PushedWrapped(memory: seq<Byte>, base: nat, n: nat, writePtr: nat, count: nat, chunk: seq<Byte>, first: nat,
                      newPtr: nat, newCount: nat)
    requires base <= writePtr < base + n <= |memory|
    requires newCount == count + |chunk| <= n && first == base + n - writePtr < |chunk|
    requires newPtr == Advanced(base, n, writePtr, |chunk|)
    ensures var after := Copied(Copied(memory, writePtr, chunk[..first]), base, chunk[first..]);
            && SameOutside(memory, after, base, n)
            && Stored(after, base, n, newPtr, newCount) == Stored(memory, base, n, writePtr, count) + chunk
  {
    var after := Copied(Copied(memory, writePtr, chunk[..first]), base, chunk[first..]);
    WrappedCells(memory, Copied(memory, writePtr, chunk[..first]), after, base, n, writePtr, chunk, first);
    Appended(memory, after, base, n, writePtr, count, chunk, newPtr, newCount);
  }

  lemma WrappedCells(memory: seq<Byte>, middle: seq<Byte>, after: seq<Byte>, base: nat, n: nat, writePtr: nat,
                     chunk: seq<Byte>, first: nat)
    requires base <= writePtr < base + n <= |memory| && first == base + n - writePtr < |chunk| <= n
    requires middle == Copied(memory, writePtr, chunk[..first]) && after == Copied(middle, base, chunk[first..])
    ensures SameOutside(memory, after, base, n)
    ensures Filled(memory, after, base, n, writePtr - base, chunk)
  {
    assert forall a {:trigger after[a]} :: 0 <= a < |memory| ==>
      after[a] == if base <= a < base + (|chunk| - first) then chunk[first + (a - base)] else middle[a];
  }

  /** The circular read from the derived read pointer is the front of the queue, and the copy of it
      to a place apart from the buffer leaves the rest. */
  lemma Extracted(memory: seq<Byte>, base: nat, n: nat, writePtr: nat, count: nat, out: nat, taken: nat,
                  dropped: nat, left: nat, end: nat, readPtr: nat)
    requires base <= writePtr < base + n <= |memory| && taken <= dropped <= count <= n && left == count - dropped
    requires out + taken <= |memory| && (out + taken <= base || base + n <= out)
    requires end == base + n && readPtr == base + Oldest(n, writePtr - base, count)
    ensures var queue := Stored(memory, base, n, writePtr, count);
            && Circular(memory, base, end, readPtr, taken) == queue[..taken]
            && Stored(Copied(memory, out, queue[..taken]), base, n, writePtr, left) == queue[dropped..]
  {
    var queue := Stored(memory, base, n, writePtr, count);
    var after := Copied(memory, out, queue[..taken]);
    forall i | 0 <= i < left
      ensures Stored(after, base, n, writePtr, left)[i] == queue[dropped..][i]
    {
      assert Place(Oldest(n, writePtr - base, left), i, n) == Place(Oldest(n, writePtr - base, count), dropped + i, n);
    }
  }

  /** One round of the copy loop. */
  lemma CopiedOneMore(memory: seq<Byte>, now: seq<Byte>, begin: nat, end: nat, start: nat, count: nat, out: nat,
                      i: nat, p: nat)
    requires begin <= start < end <= |memory| && i < count <= end - begin
    requires p == begin + Place(start - begin, i, end - begin)
    requires out + count <= |memory| && (out + count <= begin || end <= out)
    requires now == Copied(memory, out, Circular(memory, begin, end, start, count)[..i])
    ensures p < |now|
    ensures now[out + i := now[p]] == Copied(memory, out, Circular(memory, begin, end, start, count)[..i + 1])
  {
    assert now[p] == memory[p] == Circular(memory, begin, end, start, count)[i];
  }

  /** The second part of a circular chunk starts behind the first, on either side of the wrap. */
  lemma CircularSplit(memory: seq<Byte>, now: seq<Byte>, begin: nat, end: nat, start: nat, count: nat, first: nat)
    requires begin <= start < end <= |memory| && count <= end - begin && first < count
    requires |now| == |memory| && forall a :: begin <= a < end ==> now[a] == memory[a]
    ensures var second := if start + first < end then start + first else begin + (start + first - end);
            && begin <= second < end
            && Circular(memory, begin, end, start, first) == Circular(memory, begin, end, start, count)[..first]
            && Circular(now, begin, end, second, count - first) == Circular(memory, begin, end, start, count)[first..]
  {
    var second := if start + first < end then start + first else begin + (start + first - end);
    forall i | 0 <= i < count - first
      ensures Circular(now, begin, end, second, count - first)[i]
           == Circular(memory, begin, end, start, count)[first..][i]
    {
      assert Place(second - begin, i, end - begin) == Place(start - begin, first + i, end - begin);
    }
  }

  /** The same after the first part was copied to a place apart from the source. */
  lemma CopiedSplit(before: seq<Byte>, middle: seq<Byte>, begin: nat, end: nat, start: nat, count: nat, first: nat,
                    out: nat, second: nat)
    requires begin <= start < end <= |before| && count <= end - begin && first < count
    requires out + first <= |before| && (out + first <= begin || end <= out)
    requires middle == Copied(before, out, Circular(before, begin, end, start, first))
    requires second == if start + first < end then start + first else begin + (start + first - end)
    ensures begin <= second < end
    ensures var chunk := Circular(before, begin, end, start, count);
            && middle == Copied(before, out, chunk[..first])
            && Circular(middle, begin, end, second, count - first) == chunk[first..]
  {
    CircularSplit(before, middle, begin, end, start, count, first);
  }

  /** The buffer and the data in it consist of whole words. */
  predicate WordAligned(base: nat, size: nat, writePtr: int) {
    size % 4 == 0 && (writePtr - base) % 4 == 0
  }

  lemma AdvancedAligned(base: nat, n: nat, writePtr: nat, count: nat)
    requires base <= writePtr < base + n && count <= n && WordAligned(base, n, writePtr) && count % 4 == 0
    ensures WordAligned(base, n, Advanced(base, n, writePtr, count))
  {
  }

  /** What the code computes for the new write pointer. */
  lemma AdvancedIs(base: nat, n: nat, writePtr: nat, count: nat, next: nat)
    requires base <= writePtr < base + n && count <= n
    requires next == if count <= base + n - writePtr then writePtr + count else base + (count - (base + n - writePtr))
    ensures Advanced(base, n, writePtr, count) == if next == base + n then base else next
    ensures base <= Advanced(base, n, writePtr, count) < base + n
  {
  }

  /** The copy primitive moves whole words only. */
  function WholeWords(bytes: nat): (n: nat)
    ensures n <= bytes < n + 4
    ensures n == bytes <==> bytes % 4 == 0
  {
    bytes - bytes % 4
  }

  class RtCircularBuffer {
    const memory: array<Byte>
    var base: nat
    var size: nat
    var active: bool
    var writePtr: nat
    var dataInBuffer: nat
    /** Registers of the core, set by whoever set up the source buffer. */
    var cBegin: nat
    var cEnd: nat

    predicate Attached()
      reads this
    {
      && active && base + size <= memory.Length && 2 * memory.Length < WORD
      && base <= writePtr < base + size
    }

    predicate Valid()
      reads this
    {
      Attached() && dataInBuffer <= size
    }

    ghost function Contents(): seq<Byte>
      requires Valid()
      reads this, memory
    {
      Stored(memory[..], base, size, writePtr, dataInBuffer)
    }

    constructor (memory: array<Byte>)
      ensures this.memory == memory && !active && dataInBuffer == 0
    {
      this.memory := memory;
      base, size, active, writePtr, dataInBuffer, cBegin, cEnd := 0, 0, false, 0, 0, 0, 0;
    }

    /** Init leaves the amount of data alone: the buffer starts out valid and empty exactly when the
        amount was 0 before and there is a cell. */
    method Init(buffer: nat, newSize: nat)
      requires buffer + newSize <= memory.Length && 2 * memory.Length < WORD
      modifies this
      ensures active && base == writePtr == buffer && size == newSize && dataInBuffer == old(dataInBuffer)
      ensures cBegin == old(cBegin) && cEnd == old(cEnd)
      ensures Valid() && Contents() == [] <==> old(dataInBuffer) == 0 < newSize
    {
      base, size := buffer, newSize;
      active := true;
      writePtr := base;
    }

    method Release()
      modifies this
      ensures !active && dataInBuffer == old(dataInBuffer)
    {
      base, size := 0, 0;
      active := false;
    }

    function ReadPtr(): (p: nat)
      requires Valid()
      reads this
      ensures p == base + Oldest(size, writePtr - base, dataInBuffer)
    {
      var p := size + writePtr - dataInBuffer;
      if p >= base + size then p - size else p
    }

    /** The derived pointer addresses the oldest byte. */
    lemma OldestAtReadPtr()
      requires Valid() && dataInBuffer > 0
      ensures base <= ReadPtr() < base + size && memory[ReadPtr()] == Contents()[0]
    {
      assert memory[..][ReadPtr()] == memory[ReadPtr()];
    }

    /** What is assumed of copy_from_cb: it copies the whole words among at least four bytes from a
        circular source region to a linear destination apart from it. */
    method CopyFromCb(out: nat, start: nat, bytes: nat)
      requires cBegin <= start < cEnd <= memory.Length && 4 <= bytes <= cEnd - cBegin
      requires out + bytes <= memory.Length && (out + bytes <= cBegin || cEnd <= out)
      modifies memory
      ensures memory[..]
           == Copied(old(memory[..]), out, Circular(old(memory[..]), cBegin, cEnd, start, WholeWords(bytes)))
    {
      var p, i, n := start, 0, WholeWords(bytes);
      ghost var before, source := memory[..], Circular(memory[..], cBegin, cEnd, start, n);
      while i < n
        modifies memory
        invariant 0 <= i <= n && p == cBegin + Place(start - cBegin, i, cEnd - cBegin)
        invariant |before| == memory.Length && memory[..] == Copied(before, out, source[..i])
      {
        CopiedOneMore(before, memory[..], cBegin, cEnd, start, n, out, i, p);
        memory[out + i] := memory[p];
        p := if p + 1 == cEnd then cBegin else p + 1;
        i := i + 1;
      }
      assert source[..i] == source;
    }

    /** The same for a whole number of words. */
    method CopyWords(out: nat, start: nat, bytes: nat)
      requires cBegin <= start < cEnd <= memory.Length && 0 < bytes <= cEnd - cBegin && bytes % 4 == 0
      requires out + bytes <= memory.Length && (out + bytes <= cBegin || cEnd <= out)
      modifies memory
      ensures memory[..] == Copied(old(memory[..]), out, Circular(old(memory[..]), cBegin, cEnd, start, bytes))
    {
      CopyFromCb(out, start, bytes);
    }

    /** The source chunk lies in the circular source region, which is apart from this buffer. */
    predicate SourceOk(data: nat, count: nat)
      reads this
    {
      && cBegin <= data < cEnd <= memory.Length && count <= cEnd - cBegin
      && (base + size <= cBegin || cEnd <= base)
    }

    /** Appends the whole chunk, wherever source and destination wrap, or drops all of it exactly when
        it does not fit. */
    method PushDataFromCb(data: nat, count: nat) returns (ec: Status)
      requires Valid() && SourceOk(data, count) && 0 < count && count % 4 == 0 && WordAligned(base, size, writePtr)
      modifies this`writePtr, this`dataInBuffer, memory
      ensures WordAligned(base, size, writePtr)
      ensures Valid() && ec == Success && SameOutside(old(memory[..]), memory[..], base, size)
      ensures old(dataInBuffer) + count > size ==>
                dataInBuffer == old(dataInBuffer) && writePtr == old(writePtr) && memory[..] == old(memory[..])
      ensures old(dataInBuffer) + count <= size ==>
                Contents() == old(Contents()) + Circular(old(memory[..]), cBegin, cEnd, data, count)
    {
      if size < dataInBuffer + count {
        return Success;
      }
      if !(size >= count) {
        return OutOfResources;
      }
      Fill(data, count);
      ec := Success;
    }

    /** The part of the push behind its checks. */
    method Fill(data: nat, count: nat)
      requires Valid() && SourceOk(data, count) && 0 < count && count % 4 == 0 && dataInBuffer + count <= size
      requires WordAligned(base, size, writePtr)
      modifies this`writePtr, this`dataInBuffer, memory
      ensures WordAligned(base, size, writePtr)
      ensures Valid() && SameOutside(old(memory[..]), memory[..], base, size)
      ensures Contents() == old(Contents()) + Circular(old(memory[..]), cBegin, cEnd, data, count)
    {
      ghost var newPtr, newCount := Advanced(base, size, writePtr, count), dataInBuffer + count;
      ghost var longer := Contents() + Circular(memory[..], cBegin, cEnd, data, count);
      AdvancedAligned(base, size, writePtr, count);
      var next;
      if count <= base + size - writePtr {
        FillLinear(data, count, newPtr, newCount, longer);
        next := writePtr + count;
      } else {
        var nonWrapped := base + size - writePtr;
        FillWrapped(data, count, nonWrapped, newPtr, newCount, longer);
        next := base + (count - nonWrapped);
      }
      AdvancedIs(base, size, writePtr, count, next);
      if next == base + size {
        next := base;
      }
      writePtr := next;
      dataInBuffer := dataInBuffer + count;
    }

    method FillLinear(data: nat, count: nat, ghost newPtr: nat, ghost newCount: nat, ghost longer: seq<Byte>)
      requires Valid() && SourceOk(data, count) && 0 < count && count % 4 == 0 && count <= base + size - writePtr
      requires newCount == dataInBuffer + count <= size && newPtr == Advanced(base, size, writePtr, count)
      requires longer == Contents() + Circular(memory[..], cBegin, cEnd, data, count)
      modifies memory
      ensures SameOutside(old(memory[..]), memory[..], base, size)
      ensures Stored(memory[..], base, size, newPtr, newCount) == longer
    {
      ghost var chunk := Circular(memory[..], cBegin, cEnd, data, count);
      PushedLinear(memory[..], base, size, writePtr, dataInBuffer, chunk, newPtr, newCount);
      CopyWords(writePtr, data, count);
    }

    method FillWrapped(data: nat, count: nat, nonWrapped: nat,
                       ghost newPtr: nat, ghost newCount: nat, ghost longer: seq<Byte>)
      requires Valid() && SourceOk(data, count) && count % 4 == 0 && nonWrapped == base + size - writePtr < count
      requires WordAligned(base, size, writePtr)
      requires newCount == dataInBuffer + count <= size && newPtr == Advanced(base, size, writePtr, count)
      requires longer == Contents() + Circular(memory[..], cBegin, cEnd, data, count)
      modifies memory
      ensures SameOutside(old(memory[..]), memory[..], base, size)
      ensures Stored(memory[..], base, size, newPtr, newCount) == longer
    {
      ghost var chunk := Circular(memory[..], cBegin, cEnd, data, count);
      PushedWrapped(memory[..], base, size, writePtr, dataInBuffer, chunk, nonWrapped, newPtr, newCount);
      CopyWrapped(data, count, nonWrapped);
    }

    /** Both copies of a chunk that wraps in the destination; the second may start before or after
        the end of the source region. */
    method CopyWrapped(data: nat, count: nat, nonWrapped: nat)
      requires SourceOk(data, count) && base <= writePtr < base + size <= memory.Length
      requires nonWrapped == base + size - writePtr && nonWrapped < count <= size
      requires nonWrapped % 4 == 0 && (count - nonWrapped) % 4 == 0
      modifies memory
      ensures var before := old(memory[..]);
              var chunk := Circular(before, cBegin, cEnd, data, count);
              memory[..] == Copied(Copied(before, writePtr, chunk[..nonWrapped]), base, chunk[nonWrapped..])
    {
      ghost var before := memory[..];
      var reminder := count - nonWrapped;
      CopyWords(writePtr, data, nonWrapped);
      var second := data + nonWrapped;
      if !(second < cEnd) {
        var delta := data + nonWrapped - cEnd;
        second := cBegin + delta;
      }
      CopiedSplit(before, memory[..], cBegin, cEnd, data, count, nonWrapped, writePtr, second);
      CopyWords(base, second, reminder);
    }

    /** Removes the oldest bytes and returns the whole words among them; the addressing registers are as
        before. */
    method ReadData(data: nat, count: nat) returns (ec: Status)
      requires Valid() && 4 <= count
      requires data + count <= memory.Length && (data + count <= base || base + size <= data)
      modifies this`dataInBuffer, this`cBegin, this`cEnd, memory
      ensures Valid() && cBegin == old(cBegin) && cEnd == old(cEnd)
      ensures ec == (if count > size then OutOfResources else if count > old(dataInBuffer) then Underrun else Success)
      ensures ec != Success ==> memory[..] == old(memory[..]) && dataInBuffer == old(dataInBuffer)
      ensures ec == Success ==>
                && memory[..] == Copied(old(memory[..]), data, old(Contents())[..WholeWords(count)])
                && Contents() == old(Contents())[count..]
    {
      if !(size >= count) {
        return OutOfResources;
      }
      if count > dataInBuffer {
        return Underrun;
      }
      var cachedBegin, cachedEnd := cBegin, cEnd;
      Extract(data, count);
      cBegin, cEnd := cachedBegin, cachedEnd;
      ec := Success;
    }

    /** The copy of ReadData, with the addressing registers set to this buffer. */
    method Extract(data: nat, count: nat)
      requires Valid() && 4 <= count <= dataInBuffer
      requires data + count <= memory.Length && (data + count <= base || base + size <= data)
      modifies this`cBegin, this`cEnd, this`dataInBuffer, memory
      ensures Valid() && dataInBuffer == old(dataInBuffer) - count
      ensures memory[..] == Copied(old(memory[..]), data, old(Contents())[..WholeWords(count)])
      ensures Contents() == old(Contents())[count..]
    {
      ghost var before, queue := memory[..], Contents();
      var readPtr, left := ReadPtr(), dataInBuffer - count;
      cBegin, cEnd := base, base + size;
      Extracted(before, base, size, writePtr, dataInBuffer, data, WholeWords(count), count, left, cEnd, readPtr);
      CopyFromCb(data, readPtr, count);
      dataInBuffer := left;
    }
  }

  /** Reading from a buffer that was just initialised: refused for a new object, granted for one that
      had four bytes pushed before. */
  method InitExample() returns (first: Status, again: Status)
    ensures first == Underrun && again == Success
  {
    var memory := new Byte[16];
    var buffer := new RtCircularBuffer(memory);
    buffer.Init(0, 8);
    first := buffer.ReadData(8, 4);
    buffer.cBegin, buffer.cEnd := 8, 16;
    var _ := buffer.PushDataFromCb(8, 4);
    buffer.Init(0, 8);
    again := buffer.ReadData(8, 4);
  }
}
