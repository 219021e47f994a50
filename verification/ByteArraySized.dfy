/** The linear input storage of a codec that is filled from a byte ring in 8-byte steps. */
module ByteArrays {
  import opened Words
  import Ring = RingModel
  import opened RingLemmas
  import RingMisuse
  import opened CircularBuffers

  /** A read commit neither starts nor ends the pending state, short of the forbidden drain. */
  lemma ReadCommitKeepsPending<T>(s: Ring.Ring<T>, size: Word)
    requires Ring.Inv(s) && size <= s.rd.queuedSize && !(Ring.Pending(s) && size == s.data)
    ensures Ring.Pending(Ring.ReadCommit(s, size, true).next) <==> Ring.Pending(s)
  {
    ReadCommitNext(s, size, true);
  }

  /** An empty request reads at least one element whenever one is unread and not lent. */
  lemma GetReadableProgress<T>(s: Ring.Ring<T>)
    requires Ring.Inv(s) && s.rd.queuedSize < s.data
    ensures var o := Ring.GetReadable(s, 0);
            && o.status == Ring.Success && o.next == s.(rd := o.next.rd)
            && o.next.rd.pos == s.rd.pos
            && o.chunk.View? && 0 < o.chunk.size == o.next.rd.queuedSize - s.rd.queuedSize
            && o.chunk.size == Ring.MaxReadable(s)
            && o.next.rd.queuedSize <= s.data
  {
  }

  lemma SlicePrefix<T>(mem: seq<T>, start: nat, size: nat, count: nat)
    requires count <= size && start + size <= |mem|
    ensures mem[start..start + size][..count] == mem[start..start + count]
  {
  }

  /** What comes of a stream when `count` bytes behind the first `queued` ones are copied, and then the
      first `count` bytes are dropped: the stream itself if nothing was queued. */
  function Taken<T>(stream: seq<T>, queued: nat, count: nat): (taken: seq<T>)
    requires queued + count <= |stream|
    ensures |taken| == |stream|
    ensures queued == 0 || count == 0 ==> taken == stream
  {
    assert stream == stream[..count] + stream[count..];
    stream[queued..queued + count] + stream[count..]
  }

  lemma TakenOnce<T>(local: seq<T>, stream: seq<T>, queued: nat, count: nat, now: seq<T>, left: seq<T>)
    requires queued + count <= |stream|
    requires now == local + stream[queued..queued + count] && left == stream[count..]
    ensures now + left == local + Taken(stream, queued, count)
  {
  }

  /** The local space that is used, in whole units of 8 bytes. */
  function Units(free: nat): (n: nat)
    ensures n <= free < n + 8 && n % 8 == 0
    ensures free >= 8 ==> n >= 8
  {
    free - free % 8
  }

  /** The bytes moved to `free` bytes of local space out of `amount` bytes, the first `run` of which lie
      next to each other: behind the wrap everything does. */
  function Moved(free: nat, amount: nat, run: nat): nat
    requires run <= amount
    decreases amount
  {
    var count := Min(Units(free), run);
    if free < 8 || amount < 8 || run == 0 then 0 else count + Moved(free - count, amount - count, amount - count)
  }

  /** One round, from a run of which either less was taken than there is, or everything up to the wrap. */
  lemma MovedOnce(free: nat, amount: nat, run: nat, count: nat, runBehind: nat)
    requires free >= 8 && amount >= 8 && 0 < run <= amount
    requires count == Min(Units(free), run) && runBehind <= amount - count
    requires count == run ==> runBehind == amount - count
    ensures Moved(free, amount, run) == count + Moved(free - count, amount - count, runBehind)
  {
  }

  /** Two rounds are enough. */
  lemma MovedInTwoRounds(free: nat, amount: nat, run: nat)
    requires free >= 8 && amount >= 8 && 0 < run <= amount
    ensures Moved(free, amount, run)
         == if Units(free) <= run || free - run < 8 || amount - run < 8 then Min(Units(free), run)
            else run + Min(Units(free - run), amount - run)
  {
    if run < Units(free) && free - run >= 8 && amount - run >= 8 {
      MovedOnce(free - run, amount - run, amount - run, Min(Units(free - run), amount - run),
                amount - run - Min(Units(free - run), amount - run));
    }
  }

  /** How many of the elements left after `count`, of `amount` from a position on, lie next to each other. */
  function RunBehind(pos: nat, logical: nat, amount: nat, count: nat): (run: nat)
    requires pos < logical && count <= amount
    ensures run <= amount - count
  {
    if pos + count < logical then Min(amount - count, logical - (pos + count)) else amount - count
  }

  /** After the commit of a round, what is left lies where it lay. */
  lemma RunAfterCommit<T>(s: Ring.Ring<T>, count: Word)
    requires Ring.Inv(s) && count <= s.rd.queuedSize
    ensures var t := Ring.ReadCommit(s, count, true).next;
            && t.rd.pos < t.logical && t.data == s.data - count
            && RunBehind(t.rd.pos, t.logical, t.data, 0) == RunBehind(s.rd.pos, s.logical, s.data, count)
  {
    ReadCommitNext(s, count, true);
  }

  class ByteArraySized {
    const data: array<Byte>
    var filledSize: nat

    ghost predicate Valid()
      reads this
    {
      filledSize <= data.Length
    }

    /** The bytes held locally. */
    ghost function Local(): seq<Byte>
      requires Valid()
      reads this, data
    {
      data[..filledSize]
    }

    constructor (data: array<Byte>)
      ensures this.data == data && Valid() && Local() == []
    {
      this.data := data;
      filledSize := 0;
    }

    function GetFree(): nat
      requires Valid()
      reads this
    {
      data.Length - filledSize
    }

    /** What a ring still holds; nothing once the drain of a pending ring has broken it. */
    static ghost function Remaining(cir: CircularBuffer<Byte>): seq<Byte>
      reads cir, cir.mem, cir.readPos, cir.writePos
    {
      if cir.Valid() then cir.Contents() else []
    }

    /** The bytes the first round copies: whole units, of the elements that lie next to each other. */
    ghost function FirstRound(cir: CircularBuffer<Byte>): (n: nat)
      requires Valid() && cir.Valid()
      reads this, cir, cir.mem, cir.readPos, cir.writePos
      ensures n <= GetFree() && n <= cir.GetDataSize()
    {
      if GetFree() < 8 || cir.GetDataSize() < 8 then 0 else Min(Units(GetFree()), cir.GetMaxReadableSize())
    }

    /** What the local array will hold in the end. */
    ghost function Goal(cir: CircularBuffer<Byte>): nat
      requires Valid() && cir.Valid()
      reads this, cir, cir.mem, cir.readPos, cir.writePos
    {
      var first := FirstRound(cir);
      if first == 0 then filledSize
      else
        var run := RunBehind(cir.readPos.pos, cir.logicalSize, cir.dataSize, first);
        filledSize + first + Moved(GetFree() - first, cir.dataSize - first, run)
    }

    /** The same once nothing is queued, also for a ring that was drained. */
    ghost function Target(cir: CircularBuffer<Byte>): nat
      requires Valid() && Ring.Sane(cir.State()) && cir.readPos.pos < cir.logicalSize
      reads this, cir, cir.mem, cir.readPos, cir.writePos
    {
      filledSize + Moved(GetFree(), cir.dataSize, RunBehind(cir.readPos.pos, cir.logicalSize, cir.dataSize, 0))
    }

    lemma GoalIsTarget(cir: CircularBuffer<Byte>)
      requires Valid() && cir.Valid() && cir.readPos.queuedDataSize == 0
      ensures Goal(cir) == Target(cir)
    {
      if FirstRound(cir) > 0 {
        var pos, logical, amount := cir.readPos.pos, cir.logicalSize, cir.dataSize;
        var first, run := FirstRound(cir), RunBehind(pos, logical, amount, 0);
        assert cir.GetMaxReadableSize() == run;
        MovedOnce(GetFree(), amount, run, first, RunBehind(pos, logical, amount, first));
      }
    }

    /** Moves bytes from the ring into the local array until either side runs short. Without reads
        queued in the ring the stream local bytes ++ ring contents is conserved; with `queued` bytes
        lent before the call, the first round copies bytes behind them and drops as many in front. The
        ring stays valid unless a head chunk was pending in it and the loop took everything. */
    method FillInCir(cir: CircularBuffer<Byte>) returns (ec: Status, ghost first: nat)
      requires Valid() && cir.Valid() && data != cir.mem
      modifies this, data, cir, cir.readPos
      ensures Valid() && Ring.Sane(cir.State()) && old(cir.readPos.queuedDataSize) + first <= old(cir.dataSize)
      ensures first == old(FirstRound(cir)) && filledSize == old(Goal(cir))
      ensures first > 0 <==>
                data.Length - old(filledSize) >= 8 && old(cir.dataSize - cir.readPos.queuedDataSize) >= 8
      ensures Local() + Remaining(cir)
           == old(Local()) + Taken(old(cir.Contents()), old(cir.readPos.queuedDataSize), first)
      ensures cir.Valid() <==> !(old(Ring.Pending(cir.State())) && cir.dataSize == 0 && first > 0)
      ensures cir.Valid() ==> cir.Staged() == old(cir.Staged())
      ensures first > 0 ==> cir.readPos.queuedDataSize == 0
      ensures first == 0 ==> Local() == old(Local()) && cir.State() == old(cir.State())
      ensures ec == if data.Length - old(filledSize) < 8 then Ring.Busy else Ring.Success
      ensures ec == Ring.Success ==>
                data.Length - filledSize < 8 || cir.dataSize - cir.readPos.queuedDataSize < 8
    {
      first := 0;
      if GetFree() < 8 {
        return Ring.Busy, first;
      }
      if GetFree() > 7 && cir.GetDataSize() > 7 {
        first := FillSome(cir);
      }
      ec := Ring.Success;
    }

    /** The loop when its condition holds at first. */
    method FillSome(cir: CircularBuffer<Byte>) returns (ghost first: nat)
      requires Valid() && cir.Valid() && data != cir.mem
      requires GetFree() > 7 && cir.GetDataSize() > 7
      modifies this, data, cir, cir.readPos
      ensures Valid() && Ring.Sane(cir.State()) && cir.readPos.queuedDataSize == 0
      ensures 0 < first && old(cir.readPos.queuedDataSize) + first <= old(cir.dataSize)
      ensures first == old(FirstRound(cir)) && filledSize == old(Goal(cir))
      ensures GetFree() < 8 || cir.GetDataSize() < 8
      ensures Local() + Remaining(cir)
           == old(Local()) + Taken(old(cir.Contents()), old(cir.readPos.queuedDataSize), first)
      ensures cir.Valid() <==> !(old(Ring.Pending(cir.State())) && cir.dataSize == 0)
      ensures cir.Valid() ==> cir.Staged() == old(cir.Staged())
    {
      first := Round(cir);
      FillOn(cir);
    }

    /** The further rounds of the loop, when nothing is queued any more. */
    method FillOn(cir: CircularBuffer<Byte>)
      requires Valid() && Ring.Sane(cir.State()) && data != cir.mem
      requires cir.readPos.queuedDataSize == 0 && cir.readPos.pos < cir.logicalSize
      requires !cir.Valid() ==> cir.dataSize == 0
      modifies this, data, cir, cir.readPos
      ensures Valid() && Ring.Sane(cir.State()) && cir.readPos.queuedDataSize == 0
      ensures filledSize == old(Target(cir)) && (GetFree() < 8 || cir.GetDataSize() < 8)
      ensures Local() + Remaining(cir) == old(Local()) + old(Remaining(cir))
      ensures cir.Valid() <==> old(cir.Valid()) && !(old(Ring.Pending(cir.State())) && cir.dataSize == 0)
      ensures !cir.Valid() ==> cir.dataSize == 0
      ensures cir.Valid() ==> cir.Staged() == old(cir.Staged())
    {
      while GetFree() > 7 && cir.GetDataSize() > 7
        invariant Valid() && Ring.Sane(cir.State())
        invariant cir.readPos.queuedDataSize == 0 && cir.readPos.pos < cir.logicalSize
        invariant Target(cir) == old(Target(cir))
        invariant Local() + Remaining(cir) == old(Local()) + old(Remaining(cir))
        invariant !cir.Valid() ==> cir.dataSize == 0
        invariant cir.Valid() <==> old(cir.Valid()) && !(old(Ring.Pending(cir.State())) && cir.dataSize == 0)
        invariant cir.Valid() ==>
                    cir.Staged() == old(cir.Staged())
                    && (Ring.Pending(cir.State()) <==> old(Ring.Pending(cir.State())))
        decreases cir.dataSize
      {
        GoalIsTarget(cir);
        ghost var count := Round(cir);
      }
    }

    /** The body of the loop. */
    method Round(cir: CircularBuffer<Byte>) returns (ghost copied: nat)
      requires Valid() && cir.Valid() && data != cir.mem
      requires GetFree() > 7 && cir.GetDataSize() > 7
      modifies this, data, cir, cir.readPos
      ensures Valid() && Ring.Sane(cir.State()) && cir.readPos.queuedDataSize == 0
      ensures 0 < copied && old(cir.readPos.queuedDataSize) + copied <= old(cir.dataSize)
      ensures cir.dataSize == old(cir.dataSize) - copied && filledSize == old(filledSize) + copied
      ensures copied == old(FirstRound(cir))
      ensures cir.readPos.pos < cir.logicalSize && Target(cir) == old(Goal(cir))
      ensures Local() + Remaining(cir)
           == old(Local()) + Taken(old(cir.Contents()), old(cir.readPos.queuedDataSize), copied)
      ensures cir.Valid() <==> !(old(Ring.Pending(cir.State())) && cir.dataSize == 0)
      ensures cir.Valid() ==>
                cir.Staged() == old(cir.Staged())
                && (Ring.Pending(cir.State()) <==> old(Ring.Pending(cir.State())))
    {
      copied := TakeOnce(cir);
    }

    /** One contiguous chunk, cut to a multiple of 8 bytes of local space. */
    method TakeOnce(cir: CircularBuffer<Byte>) returns (ghost copied: nat)
      requires Valid() && cir.Valid() && data != cir.mem
      requires GetFree() > 7 && cir.GetDataSize() > 7
      modifies this, data, cir, cir.readPos
      ensures Valid() && Ring.Sane(cir.State()) && cir.readPos.queuedDataSize == 0
      ensures cir.dataSize == old(cir.dataSize) - copied && filledSize == old(filledSize) + copied
      ensures copied == old(FirstRound(cir))
      ensures cir.readPos.pos < cir.logicalSize
      ensures RunBehind(cir.readPos.pos, cir.logicalSize, cir.dataSize, 0)
           == RunBehind(old(cir.readPos.pos), old(cir.logicalSize), old(cir.dataSize), copied)
      ensures 0 < copied && old(cir.readPos.queuedDataSize) + copied <= old(cir.dataSize)
      ensures Local() + Remaining(cir)
           == old(Local()) + Taken(old(cir.Contents()), old(cir.readPos.queuedDataSize), copied)
      ensures cir.Valid() <==> !(old(Ring.Pending(cir.State())) && cir.dataSize == 0)
      ensures cir.Valid() ==>
                cir.Staged() == old(cir.Staged())
                && (Ring.Pending(cir.State()) <==> old(Ring.Pending(cir.State())))
    {
      ghost var local, stream, queued := Local(), cir.Contents(), cir.readPos.queuedDataSize;
      var copyCnt := CopyChunk(cir);
      copied := copyCnt;
      ghost var now := Local();
      Consume(cir, copyCnt);
      assert Local() == now && Remaining(cir) == stream[copied..];
      TakenOnce(local, stream, queued, copied, now, Remaining(cir));
    }

    /** Reserves a chunk and copies what fits of it, in whole 8-byte units of local space. */
    method CopyChunk(cir: CircularBuffer<Byte>) returns (copyCnt: nat)
      requires Valid() && cir.Valid() && data != cir.mem
      requires GetFree() > 7 && cir.GetDataSize() > 7
      modifies this, data, cir.readPos
      ensures Valid() && cir.Valid()
      ensures cir.Contents() == old(cir.Contents()) && cir.Staged() == old(cir.Staged())
      ensures Ring.Pending(cir.State()) <==> old(Ring.Pending(cir.State()))
      ensures copyCnt == old(FirstRound(cir))
      ensures cir.readPos.pos == old(cir.readPos.pos)
      ensures filledSize == old(filledSize) + copyCnt
      ensures 0 < copyCnt && old(cir.readPos.queuedDataSize) + copyCnt <= cir.readPos.queuedDataSize
      ensures var queued := old(cir.readPos.queuedDataSize);
              Local() == old(Local()) + old(cir.Contents())[queued..queued + copyCnt]
    {
      var localFreeAligned := Units(GetFree());
      var input := Borrow(cir);
      copyCnt := Min(localFreeAligned, input.size);
      AppendLent(cir, input, old(cir.readPos.queuedDataSize), copyCnt);
    }

    /** The read reservation of the loop. */
    static method Borrow(cir: CircularBuffer<Byte>) returns (input: View)
      requires cir.Valid() && cir.readPos.queuedDataSize < cir.dataSize
      modifies cir.readPos
      ensures cir.Valid() && cir.Contents() == old(cir.Contents()) && cir.Staged() == old(cir.Staged())
      ensures Ring.Pending(cir.State()) <==> old(Ring.Pending(cir.State()))
      ensures cir.readPos.pos == old(cir.readPos.pos)
      ensures input.View? && 0 < input.size == old(cir.GetMaxReadableSize())
      ensures old(cir.readPos.queuedDataSize) + input.size == cir.readPos.queuedDataSize <= cir.dataSize
      ensures input.start + input.size <= cir.mem.Length
      ensures cir.mem[input.start..input.start + input.size]
           == cir.Contents()[old(cir.readPos.queuedDataSize)..cir.readPos.queuedDataSize]
    {
      GetReadableProgress(cir.State());
      var _, chunk := cir.GetReadableBuffer(Ring.Detached, 0);
      input := chunk;
    }

    /** The commit of the loop; it drains a pending ring when it takes all that is left. */
    static method Consume(cir: CircularBuffer<Byte>, count: nat)
      requires cir.Valid() && 0 < count <= cir.readPos.queuedDataSize
      modifies cir, cir.readPos
      ensures Ring.Sane(cir.State()) && cir.readPos.queuedDataSize == 0
      ensures cir.dataSize == old(cir.dataSize) - count
      ensures cir.readPos.pos < cir.logicalSize
      ensures RunBehind(cir.readPos.pos, cir.logicalSize, cir.dataSize, 0)
           == RunBehind(old(cir.readPos.pos), old(cir.logicalSize), old(cir.dataSize), count)
      ensures Remaining(cir) == old(cir.Contents())[count..]
      ensures cir.Valid() <==> !(old(Ring.Pending(cir.State())) && cir.dataSize == 0)
      ensures cir.Valid() ==>
                cir.Staged() == old(cir.Staged())
                && (Ring.Pending(cir.State()) <==> old(Ring.Pending(cir.State())))
    {
      ghost var s := cir.State();
      ReadCommitKeepsInvIff(s, count, true);
      RunAfterCommit(s, count);
      var _ := cir.ReadCommit(count, true);
      if Ring.Pending(s) && count == s.data {
        RingMisuse.DrainWhilePending(s, true);
      } else {
        ReadCommitKeepsPending(s, count);
      }
    }

    /** Copies the first `count` bytes of a lent chunk behind the local bytes. */
    method AppendLent(cir: CircularBuffer<Byte>, input: View, ghost queued: nat, count: nat)
      requires Valid() && cir.Valid() && data != cir.mem
      requires input.View? && count <= input.size && queued + input.size <= cir.dataSize && count <= GetFree()
      requires input.start + input.size <= cir.mem.Length
      requires cir.mem[input.start..input.start + input.size] == cir.Contents()[queued..queued + input.size]
      modifies this, data
      ensures Valid() && cir.State() == old(cir.State()) && filledSize == old(filledSize) + count
      ensures Local() == old(Local()) + old(cir.Contents())[queued..queued + count]
    {
      SlicePrefix(cir.mem[..], input.start, input.size, count);
      SlicePrefix(cir.Contents(), queued, input.size, count);
      forall j | 0 <= j < count {
        data[filledSize + j] := cir.mem[input.start + j];
      }
      filledSize := filledSize + count;
      assert Local() == old(Local()) + old(cir.mem[input.start..input.start + count]);
    }

    /** Drops consumed bytes and moves the rest to the beginning. */
    method ShiftLeft(consumed: nat) returns (ec: Status)
      requires Valid()
      modifies this, data
      ensures Valid()
      ensures consumed > old(filledSize) ==> ec == Ring.InvalidParam && Local() == old(Local())
      ensures consumed <= old(filledSize) ==> ec == Ring.Success && Local() == old(Local())[consumed..]
    {
      if filledSize < consumed {
        return Ring.InvalidParam;
      }
      forall j | 0 <= j < filledSize - consumed {
        data[j] := data[consumed + j];
      }
      filledSize := filledSize - consumed;
      ec := Ring.Success;
    }
  }
}
