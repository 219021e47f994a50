/**
 The ring buffer as an object: its methods update the counters, the two positions and the cells in
 place. Each method computes the transition of RingModel, and in the regime of its guard it is the
 FIFO operation its name promises.
 */
module CircularBuffers {
  import opened Words
  import Ring = RingModel
  import opened RingLemmas
  import opened RingAnswers
  type View = Ring.View
  type Status = Ring.Status

  class Position {
    var pos: nat
    var queuedPos: nat
    var queuedDataSize: nat

    function Value(): Ring.Pos
      reads this
    {
      Ring.Pos(pos, queuedPos, queuedDataSize)
    }

    constructor ()
      ensures Value() == Ring.Pos(0, 0, 0)
    {
      pos, queuedPos, queuedDataSize := 0, 0, 0;
    }

    method Set(newPos: nat)
      modifies this
      ensures Value() == Ring.SetPos(old(Value()), newPos)
    {
      pos := newPos;
      queuedPos := newPos;
    }

    method SafeSet(newPos: nat, boundary: nat) returns (ec: Status)
      requires boundary > 0
      modifies this
      ensures (Value(), ec) == Ring.SafeSet(old(Value()), newPos, boundary)
    {
      if newPos > boundary {
        return Ring.InvalidParam;
      }
      if HasQueued() {
        return Ring.Busy;
      }
      Set(newPos % boundary);
      return Ring.Success;
    }

    method IncWrapPos(inc: nat, boundary: nat) returns (oldPos: nat)
      requires boundary > 0
      modifies this
      ensures oldPos == old(pos)
      ensures Value() == Ring.SetPos(old(Value()), (old(pos) + inc) % boundary)
    {
      oldPos := pos;
      Set((pos + inc) % boundary);
    }

    method IncQueuedPos(inc: nat, boundary: nat)
      requires boundary > 0
      modifies this
      ensures Value() == Ring.IncQueued(old(Value()), inc, boundary)
    {
      queuedDataSize := queuedDataSize + inc;
      queuedPos := (queuedPos + inc) % boundary;
    }

    method SetQueuedPos(inc: nat)
      modifies this
      ensures Value() == Ring.SetQueued(old(Value()), inc)
    {
      queuedDataSize := queuedDataSize + inc;
      queuedPos := inc;
    }

    predicate HasQueued()
      reads this
    {
      pos != queuedPos
    }

    method CommitQueued(commitSize: nat, boundary: nat) returns (wrapping: bool)
      requires boundary > 0
      modifies this
      ensures (Value(), wrapping) == Ring.CommitQueued(old(Value()), commitSize, boundary)
    {
      if commitSize > queuedDataSize {
        return true;
      }
      queuedDataSize := queuedDataSize - commitSize;
      wrapping := pos + commitSize >= boundary;
      pos := (pos + commitSize) % boundary;
    }

    method ResetQueued()
      modifies this
      ensures Value() == Ring.ResetQueued(old(Value()))
    {
      queuedDataSize := 0;
      queuedPos := pos;
    }

    method Reset()
      modifies this
      ensures Value() == Ring.Pos(0, 0, 0)
    {
      pos, queuedPos, queuedDataSize := 0, 0, 0;
    }
  }

  class CircularBuffer<T> {
    /** The preceding array followed by the ring's own array. */
    const mem: array<T>
    const pre: nat
    var dataSize: nat
    var logicalSize: nat
    const readPos: Position
    const writePos: Position

    ghost function State(): Ring.Ring<T>
      reads this, mem, readPos, writePos
    {
      Ring.Ring(mem[..], pre, dataSize, logicalSize, readPos.Value(), writePos.Value())
    }

    ghost predicate Valid()
      reads this, mem, readPos, writePos
    {
      readPos != writePos && Ring.Inv(State())
    }

    ghost function Contents(): seq<T>
      requires Valid()
      reads this, mem, readPos, writePos
    {
      Ring.Contents(State())
    }

    ghost function Staged(): seq<T>
      requires Valid()
      reads this, mem, readPos, writePos
    {
      Ring.Staged(State())
    }

    constructor (mem: array<T>, pre: nat)
      requires pre < mem.Length && 2 * (mem.Length - pre) < WORD
      ensures Valid() && this.mem == mem && this.pre == pre
      ensures fresh(readPos) && fresh(writePos)
      ensures Contents() == [] && Staged() == []
    {
      this.mem := mem;
      this.pre := pre;
      dataSize := 0;
      logicalSize := mem.Length - pre;
      readPos := new Position();
      writePos := new Position();
    }

    function Size(): nat
      requires pre <= mem.Length
    {
      mem.Length - pre
    }

    function GetDataSize(): (size: nat)
      requires Ring.Sane(State())
      reads this, mem, readPos, writePos
      ensures size == Ring.DataSize(State())
    {
      dataSize - readPos.queuedDataSize
    }

    function GetFreeDataSize(): (size: nat)
      requires Valid()
      reads this, mem, readPos, writePos
      ensures size == Ring.FreeSize(State())
    {
      logicalSize - (dataSize + writePos.queuedDataSize)
    }

    function GetMaxReadableSize(): (size: nat)
      requires Ring.Sane(State())
      reads this, mem, readPos, writePos
      ensures size == Ring.MaxReadable(State())
    {
      Min(logicalSize - readPos.queuedPos, GetDataSize())
    }

    function GetMaxWriteableSize(): (size: nat)
      requires Valid()
      reads this, mem, readPos, writePos
      ensures size == Ring.MaxWriteable(State())
    {
      Min(logicalSize - writePos.queuedPos, GetFreeDataSize())
    }

    /** Appends what the granted cells hold, in ring order. */
    method WriteCommit(size: Word, lastCommit: bool) returns (ec: Status)
      requires Valid()
      modifies this, writePos
      ensures Ring.Outcome(State(), ec, Ring.Detached) == Ring.WriteCommit(old(State()), size, lastCommit)
      ensures AnswersWriteCommit(old(State()), size, lastCommit, Ring.Outcome(State(), ec, Ring.Detached))
      ensures size <= old(writePos.queuedDataSize) ==>
                Valid() && ec == Ring.Success && Contents() == old(Contents()) + old(Staged())[..size]
    {
      ghost var s := State();
      WriteCommitAnswered(s, size, lastCommit);
      if (size + dataSize) % WORD > logicalSize {
        ec := Ring.Overrun;
      } else {
        var _ := writePos.CommitQueued(size, logicalSize);
        dataSize := (dataSize + size) % WORD;
        if lastCommit {
          writePos.ResetQueued();
        }
        ec := Ring.Success;
      }
      if size <= s.wr.queuedSize {
        WriteCommitAppends(s, size, lastCommit);
      }
    }

    /** Drops a prefix. While a head chunk is pending the ring must not be drained completely. */
    method ReadCommit(size: Word, lastCommit: bool) returns (ec: Status)
      requires Valid()
      modifies this, readPos
      ensures Ring.Outcome(State(), ec, Ring.Detached) == Ring.ReadCommit(old(State()), size, lastCommit)
      ensures AnswersReadCommit(old(State()), size, lastCommit, Ring.Outcome(State(), ec, Ring.Detached))
      ensures size <= old(readPos.queuedDataSize) ==>
                && ec == Ring.Success
                && dataSize == old(dataSize) - size
                && (!(old(Ring.Pending(State())) && size == old(dataSize)) ==>
                      Valid() && Contents() == old(Contents())[size..] && Staged() == old(Staged()))
    {
      if size <= readPos.queuedDataSize && !(Ring.Pending(State()) && size == dataSize) {
        ReadCommitContents(State(), size, lastCommit);
      }
      if size <= readPos.queuedDataSize {
        ReadCommitAmount(State(), size, lastCommit);
      }
      ReadCommitAnswered(State(), size, lastCommit);
      ec := CommitRead(size, lastCommit);
    }

    /** The statements of ReadCommit. */
    method CommitRead(size: Word, lastCommit: bool) returns (ec: Status)
      requires Valid()
      modifies this, readPos
      ensures Ring.Outcome(State(), ec, Ring.Detached) == Ring.ReadCommit(old(State()), size, lastCommit)
    {
      if size > dataSize {
        ec := Ring.Underrun;
      } else {
        var wrapped := readPos.CommitQueued(size, logicalSize);
        dataSize := dataSize - size;
        if wrapped && logicalSize < Size() {
          logicalSize := Size();
        }
        if lastCommit {
          readPos.ResetQueued();
        }
        ec := Ring.Success;
      }
    }

    /** Lends the next unread elements that lie next to each other. */
    method GetReadableBuffer(buffer: View, requested: nat) returns (ec: Status, chunk: View)
      requires Valid()
      modifies readPos
      ensures Valid() && Contents() == old(Contents()) && Staged() == old(Staged())
      ensures buffer != Ring.Detached ==> ec == Ring.InvalidParam && chunk == buffer && State() == old(State())
      ensures buffer == Ring.Detached ==>
                && Ring.Outcome(State(), ec, chunk) == Ring.GetReadable(old(State()), requested)
                && AnswersRead(old(State()), requested, Ring.Outcome(State(), ec, chunk))
      ensures ec == Ring.Success ==>
                && CoversCells(old(State()), chunk, old(readPos.queuedDataSize))
                && readPos.queuedDataSize == old(readPos.queuedDataSize) + chunk.size <= dataSize
                && mem[chunk.start..chunk.start + chunk.size]
                     == Contents()[old(readPos.queuedDataSize)..readPos.queuedDataSize]
    {
      if buffer != Ring.Detached {
        return Ring.InvalidParam, buffer;
      }
      GetReadableLends(State(), requested);
      ReadAnswered(State(), requested);
      ec, chunk := ReserveRead(requested);
    }

    /** The part of GetReadableBuffer behind the check of the descriptor. */
    method ReserveRead(requested: nat) returns (ec: Status, chunk: View)
      requires Valid()
      modifies readPos
      ensures Ring.Outcome(State(), ec, chunk) == Ring.GetReadable(old(State()), requested)
    {
      var size := if requested == 0 then GetMaxReadableSize() else requested;
      if size == 0 || size > GetMaxReadableSize() {
        return Ring.OutOfResources, Ring.Detached;
      }
      chunk := Ring.View(pre + readPos.queuedPos, size);
      readPos.IncQueuedPos(size, logicalSize);
      ec := Ring.Success;
    }

    /** Lends a contiguous run of free cells, at the tail or, hiding the tail, at the head. */
    method GetWriteableBuffer(buffer: View, requested: nat) returns (ec: Status, chunk: View)
      requires Valid()
      modifies this, writePos
      ensures buffer != Ring.Detached ==> ec == Ring.InvalidParam && chunk == buffer && State() == old(State())
      ensures buffer == Ring.Detached ==>
                && Ring.Outcome(State(), ec, chunk) == Ring.GetWriteable(old(State()), requested)
                && AnswersWrite(old(State()), requested, Ring.Outcome(State(), ec, chunk))
      ensures !(old(Ring.TakesHead(State(), requested))
                && old(readPos.queuedDataSize) == old(dataSize) + old(writePos.queuedDataSize)) ==>
                && Valid()
                && Contents() == old(Contents())
                && old(Staged()) <= Staged()
                && (ec == Ring.Success ==>
                      && CoversCells(State(), chunk, old(dataSize) + old(writePos.queuedDataSize))
                      && |Staged()| == |old(Staged())| + chunk.size
                      && (requested != 0 ==> chunk.size == requested))
    {
      if buffer != Ring.Detached {
        return Ring.InvalidParam, buffer;
      }
      if !(Ring.TakesHead(State(), requested)
           && readPos.queuedDataSize == dataSize + writePos.queuedDataSize) {
        GetWriteableLends(State(), requested);
      }
      WriteAnswered(State(), requested);
      ec, chunk := Reserve(requested);
    }

    /** GetWriteableBuffer behind the check of the descriptor. */
    method Reserve(requested: nat) returns (ec: Status, chunk: View)
      requires Valid()
      modifies this, writePos
      ensures Ring.Outcome(State(), ec, chunk) == Ring.GetWriteable(old(State()), requested)
    {
      var size := if requested == 0 then GetMaxWriteableSize() else requested;
      if size == 0 || GetFreeDataSize() < size {
        return Ring.OutOfResources, Ring.Detached;
      }
      if writePos.queuedPos + size <= logicalSize {
        chunk := Ring.View(pre + writePos.queuedPos, size);
        writePos.IncQueuedPos(size, logicalSize);
      } else if size <= readPos.pos {
        logicalSize := writePos.queuedPos;
        chunk := Ring.View(pre, size);
        writePos.SetQueuedPos(size);
      } else {
        return Ring.OutOfResources, Ring.Detached;
      }
      ec := Ring.Success;
    }

    method Push(element: T) returns (ec: Status)
      requires Valid()
      modifies this, writePos, mem
      ensures Ring.Outcome(State(), ec, Ring.Detached) == Ring.Push(old(State()), element)
      ensures AnswersPush(old(State()), element, Ring.Outcome(State(), ec, Ring.Detached))
      ensures ec == Ring.Success && old(GetFreeDataSize()) > 0 ==>
                Valid() && Contents() == old(Contents()) + [element]
    {
      ghost var s := State();
      PushAnswered(s, element);
      if logicalSize == GetDataSize() {
        return Ring.OutOfResources;
      }
      if writePos.HasQueued() {
        return Ring.Busy;
      }
      var at := writePos.IncWrapPos(1, logicalSize);
      mem[pre + at] := element;
      dataSize := dataSize + 1;
      ec := Ring.Success;
      if Ring.FreeSize(s) > 0 {
        PushAppends(s, element);
      }
    }

    method Pop(hasTarget: bool) returns (ec: Status, element: Option<T>)
      requires Valid()
      modifies this, readPos
      ensures !hasTarget ==> ec == Ring.InvalidParam && State() == old(State())
      ensures hasTarget ==> ec == Ring.Pop(old(State())).status && State() == Ring.Pop(old(State())).next
      ensures hasTarget ==>
                var at := if ec == Ring.Success then Ring.View(pre + old(readPos.pos), 1) else Ring.Detached;
                AnswersPop(old(State()), Ring.Outcome(State(), ec, at))
      ensures element.Some? <==> ec == Ring.Success
      ensures ec == Ring.Success && !(old(Ring.Pending(State())) && old(dataSize) == 1) ==>
                Valid() && [element.value] + Contents() == old(Contents()) && Staged() == old(Staged())
    {
      if !hasTarget {
        return Ring.InvalidParam, None;
      }
      ghost var s := State();
      PopAnswered(s);
      ec, element := TakeOldest();
      if ec == Ring.Success && !(Ring.Pending(s) && s.data == 1) {
        PopContents(s);
      }
    }

    /** Pop behind the check of its argument. */
    method TakeOldest() returns (ec: Status, element: Option<T>)
      requires Valid()
      modifies this, readPos
      ensures ec == Ring.Pop(old(State())).status && State() == Ring.Pop(old(State())).next
      ensures element.Some? <==> ec == Ring.Success
      ensures ec == Ring.Success ==> element == Some(old(mem[pre + readPos.pos]))
    {
      if GetDataSize() == 0 {
        return Ring.OutOfResources, None;
      }
      if readPos.HasQueued() {
        return Ring.Busy, None;
      }
      var at := readPos.IncWrapPos(1, logicalSize);
      element := Some(mem[pre + at]);
      if readPos.pos == 0 && logicalSize < Size() {
        logicalSize := Size();
      }
      dataSize := dataSize - 1;
      ec := Ring.Success;
    }

    method DisplaceReadPosition(newReadPosition: Word) returns (ec: Status)
      requires Valid()
      modifies this, readPos
      ensures Ring.Outcome(State(), ec, Ring.Detached) == Ring.DisplaceRead(old(State()), newReadPosition)
      ensures AnswersMoveRead(old(State()), newReadPosition, Ring.Outcome(State(), ec, Ring.Detached))
      ensures ec == Ring.Success && old(readPos.queuedDataSize) == 0 ==>
                && Valid() && dataSize < old(dataSize)
                && Contents() == old(Contents())[old(dataSize) - dataSize..]
                && readPos.pos == newReadPosition % Size()
    {
      ghost var s := State();
      MoveReadAnswered(s, newReadPosition);
      if logicalSize != Size() {
        return Ring.Busy;
      }
      var consumedData := Distance(readPos.pos, newReadPosition, Size());
      if consumedData > dataSize {
        return Ring.Underrun;
      }
      ec := readPos.SafeSet(newReadPosition, Size());
      if ec == Ring.Success {
        dataSize := dataSize - consumedData;
        if s.rd.queuedSize == 0 {
          DisplaceReadDrops(s, newReadPosition);
        }
      }
    }

    method DisplaceWritePosition(newWritePosition: Word) returns (ec: Status)
      requires Valid()
      modifies this, writePos
      ensures Ring.Outcome(State(), ec, Ring.Detached) == Ring.DisplaceWrite(old(State()), newWritePosition)
      ensures AnswersMoveWrite(old(State()), newWritePosition, Ring.Outcome(State(), ec, Ring.Detached))
      ensures ec == Ring.Success && old(writePos.queuedDataSize) == 0 ==>
                && Valid() && old(dataSize) < dataSize
                && old(Contents()) <= Contents()
                && writePos.pos == newWritePosition % Size()
    {
      ghost var s := State();
      MoveWriteAnswered(s, newWritePosition);
      if logicalSize != Size() {
        return Ring.Busy;
      }
      var incomingData := Distance(writePos.pos, newWritePosition, Size());
      if incomingData + dataSize > Size() {
        return Ring.Overrun;
      }
      ec := writePos.SafeSet(newWritePosition, Size());
      if ec == Ring.Success {
        dataSize := dataSize + incomingData;
        if s.wr.queuedSize == 0 {
          DisplaceWriteAppends(s, newWritePosition);
        }
      }
    }

    method InsertData(size: Word) returns (ec: Status)
      requires Valid()
      modifies this, writePos
      ensures Ring.Outcome(State(), ec, Ring.Detached) == Ring.InsertData(old(State()), size)
      ensures AnswersInsert(old(State()), size, Ring.Outcome(State(), ec, Ring.Detached))
      ensures ec == Ring.Success ==> (dataSize == old(dataSize) + size <==> 1 <= size <= Size())
    {
      ghost var s := State();
      InsertAnswered(s, size);
      ec := DisplaceWritePosition((writePos.pos + size) % WORD % Size());
      if ec == Ring.Success {
        InsertDataAppendsIff(s, size);
      }
    }

    /** Shows wrapped data as one region: the part before the wrap is copied below the array. */
    method Unwind(buffer: View, maxDataRequested: nat) returns (ec: Status, chunk: View)
      requires Valid()
      modifies readPos, mem
      ensures buffer != Ring.Detached ==> ec == Ring.InvalidParam && chunk == buffer && State() == old(State())
      ensures buffer == Ring.Detached ==>
                && Ring.Outcome(State(), ec, chunk) == Ring.Unwind(old(State()), maxDataRequested)
                && AnswersUnwind(old(State()), maxDataRequested, Ring.Outcome(State(), ec, chunk))
      ensures maxDataRequested <= old(GetDataSize()) ==>
                && Valid()
                && Contents() == old(Contents()) && Staged() == old(Staged())
                && (ec == Ring.Success ==>
                      && chunk.View? && chunk.start + chunk.size <= mem.Length && chunk.size <= dataSize
                      && mem[chunk.start..chunk.start + chunk.size] == Contents()[..chunk.size]
                      && readPos.queuedDataSize == chunk.size)
    {
      if buffer != Ring.Detached {
        return Ring.InvalidParam, buffer;
      }
      if maxDataRequested <= GetDataSize() {
        UnwindLends(State(), maxDataRequested);
      }
      UnwindAnswered(State(), maxDataRequested);
      ec, chunk := UnwindDetached(maxDataRequested);
    }

    /** Unwind behind the check of the descriptor. */
    method UnwindDetached(maxDataRequested: nat) returns (ec: Status, chunk: View)
      requires Valid()
      modifies readPos, mem
      ensures Ring.Outcome(State(), ec, chunk) == Ring.Unwind(old(State()), maxDataRequested)
    {
      if readPos.queuedDataSize != 0 {
        return Ring.Busy, Ring.Detached;
      }
      var request := if maxDataRequested == 0 then GetDataSize() else maxDataRequested;
      var copySize := GetMaxReadableSize();
      if !(readPos.pos + GetDataSize() > logicalSize) || request <= copySize {
        ec, chunk := ReserveRead(Min(request, copySize));
        return;
      }
      if pre == 0 {
        return Ring.InvalidRequest, Ring.Detached;
      }
      if copySize > pre {
        return Ring.OutOfResources, Ring.Detached;
      }
      chunk := UnwindCopy(request, copySize);
      ec := Ring.Success;
    }

    /** The branch of Unwind that copies. */
    method UnwindCopy(request: nat, copySize: nat) returns (chunk: View)
      requires Valid() && copySize <= pre && copySize <= Size() - readPos.pos
      modifies readPos, mem
      ensures chunk == Ring.View(pre - copySize, request)
      ensures var s, first := old(State()), pre + old(readPos.pos);
              State() == s.(mem := s.mem[..pre - copySize] + s.mem[first..first + copySize] + s.mem[pre..],
                            rd := Ring.IncQueued(s.rd, request, s.logical))
    {
      CopyBelow(copySize);
      chunk := Ring.View(pre - copySize, request);
      readPos.IncQueuedPos(request, logicalSize);
    }

    /** The copy of the readable tail into the end of the preceding array. */
    method CopyBelow(count: nat)
      requires Valid() && count <= pre && count <= Size() - readPos.pos
      modifies mem
      ensures mem[..] == old(mem[..pre - count] + mem[pre + readPos.pos..pre + readPos.pos + count] + mem[pre..])
    {
      forall j | 0 <= j < count {
        mem[pre - count + j] := mem[pre + readPos.pos + j];
      }
    }

    method Reset()
      requires readPos != writePos && pre < mem.Length && 2 * Size() < WORD
      modifies this, readPos, writePos
      ensures State() == Ring.Reset(old(State()))
      ensures Valid() && Contents() == [] && Staged() == []
    {
      writePos.Reset();
      readPos.Reset();
      dataSize := 0;
      logicalSize := Size();
    }

    method ReInitialize(readPosition: Word, newDataSize: Word) returns (ec: Status)
      requires Valid()
      modifies this, readPos, writePos
      ensures Ring.Outcome(State(), ec, Ring.Detached) == Ring.ReInitialize(old(State()), readPosition, newDataSize)
      ensures AnswersReInitialize(old(State()), readPosition, newDataSize, Ring.Outcome(State(), ec, Ring.Detached))
      ensures Valid() <==> readPosition > Size() || newDataSize <= Size()
    {
      ReInitializeKeepsInvIff(State(), readPosition, newDataSize);
      ReInitializeAnswered(State(), readPosition, newDataSize);
      if dataSize > Size() {
        return Ring.InvalidParam;
      }
      Reset();
      ec := readPos.SafeSet(readPosition, Size());
      if ec != Ring.Success {
        return Ring.Failure;
      }
      ec := writePos.SafeSet((readPosition + newDataSize) % WORD % Size(), Size());
      if ec != Ring.Success {
        return Ring.Failure;
      }
      dataSize := newDataSize;
      ec := Ring.Success;
    }
  }
}
