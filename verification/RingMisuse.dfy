/**
 What happens outside the regime: for each condition the code leaves to its callers, what the queue
 loses when the condition is violated, for every such state, and one small ring on which it is.
 */
module RingMisuse {
  import opened Words
  import opened RingModel
  import opened RingLemmas
  import opened RingRegime

  // ---------------------------------------------------------------- the tail hidden while all is lent

  /** A reservation skips the tail although every element is lent to the reader, for instance none. */
  ghost predicate HidesWhileDrained<T>(s: Ring<T>, size: nat)
    requires Inv(s)
  {
    TakesHead(s, size) && s.rd.queuedSize == s.data + s.wr.queuedSize
  }

  lemma HiddenBounds<T>(s: Ring<T>, size: nat)
    requires Inv(s) && HidesWhileDrained(s, size)
    ensures s.wr.queued == s.rd.pos + s.data && 0 < Requested(s, size) <= s.rd.pos < WORD
    ensures GetWriteable(s, size).next.logical == s.wr.queued
  {
    GetWriteableNext(s, size);
    HideOnlyUnwrapped(s, size);
  }

  /** The ring after that reservation, whatever its holder left in memory, and the commit of the
      whole chunk. */
  function HiddenThenCommitted<T>(s: Ring<T>, size: nat, mem: seq<T>): Ring<T>
    requires Inv(s) && HidesWhileDrained(s, size)
  {
    HiddenBounds(s, size);
    WriteCommit(GetWriteable(s, size).next.(mem := mem), Requested(s, size), true).next
  }

  lemma HiddenThenCommittedIs<T>(s: Ring<T>, size: nat, mem: seq<T>) returns (p: nat)
    requires Inv(s) && HidesWhileDrained(s, size)
    ensures s.wr.queued == s.rd.pos + s.data && 0 < Requested(s, size) <= s.rd.pos
    ensures p == if Requested(s, size) < s.wr.queued then Requested(s, size) else 0
    ensures HiddenThenCommitted(s, size, mem)
         == s.(mem := mem, logical := s.wr.queued, data := s.data + Requested(s, size), wr := Pos(p, p, 0))
  {
    GetWriteableNext(s, size);
    HideOnlyUnwrapped(s, size);
    var k := Requested(s, size);
    assert (k + s.data) % WORD == s.data + k;
    p := if k < s.wr.queued then k else 0;
    DivUnique(s.wr.queued + k, s.wr.queued, if k < s.wr.queued then 1 else 2, p);
  }

  /** Until the reader commits what it holds, every read request is refused: after the reservation,
      and after any commit of the chunk. */
  lemma HideWhileDrainedBlocksReader<T>(s: Ring<T>, size: nat, committed: Word, last: bool, wanted: nat)
    requires Inv(s) && HidesWhileDrained(s, size) && committed <= Requested(s, size)
    ensures var t := GetWriteable(s, size).next;
            && Sane(t) && GetReadable(t, wanted).status == OutOfResources
            && var u := WriteCommit(t, committed, last).next;
               Sane(u) && u.data == s.data + committed && GetReadable(u, wanted).status == OutOfResources
  {
    HideOnlyUnwrapped(s, size);
    GetWriteableNext(s, size);
    assert (committed + s.data) % WORD == s.data + committed;
  }

  /** That commit of the reader repairs the ring exactly when the chunk did not fill the shortened
      ring: then the chunk is the queue, complete and in order. */
  lemma HideWhileDrainedRecoversIff<T>(s: Ring<T>, size: nat, mem: seq<T>)
    requires Inv(s) && HidesWhileDrained(s, size) && |mem| == |s.mem|
    ensures var k := Requested(s, size);
            var u := HiddenThenCommitted(s, size, mem);
            && 0 < u.logical && u.pre <= |u.mem|
            && var v := ReadCommit(u, s.rd.queuedSize, true).next;
               && v == u.(data := k, logical := Size(s), rd := Pos(0, 0, 0))
               && (Inv(v) <==> k < s.wr.queued)
               && (k < s.wr.queued ==> Contents(v) == mem[s.pre..s.pre + k] && Staged(v) == [])
  {
    var p := HiddenThenCommittedIs(s, size, mem);
    var u, k := HiddenThenCommitted(s, size, mem), Requested(s, size);
    DivUnique(s.wr.queued, s.wr.queued, 1, 0);
    HeadIsQueue(u.(data := k, logical := Size(s), rd := Pos(0, 0, 0)), k);
  }

  /** A full-size ring that starts at the head of the array. */
  lemma HeadIsQueue<T>(v: Ring<T>, k: nat)
    requires v.pre < |v.mem| && 2 * Size(v) < WORD && v.logical == Size(v) && 0 < k < Size(v)
    requires v.data == k && v.rd == Pos(0, 0, 0) && v.wr.pos == v.wr.queued && v.wr.queuedSize == 0
    ensures Inv(v) <==> v.wr.pos == k
    ensures Inv(v) ==> Contents(v) == v.mem[v.pre..v.pre + k] && Staged(v) == []
  {
  }

  /** With nothing lent, Pop does not wait for that: it hands out the hidden cell, which is not one
      of the cells the writer was given. */
  lemma HideWhileEmptyPopsHiddenCell<T>(s: Ring<T>, size: nat, mem: seq<T>)
    requires Inv(s) && HidesWhileDrained(s, size) && |mem| == |s.mem| && s.rd.queuedSize == 0
    ensures var u := HiddenThenCommitted(s, size, mem);
            && Sane(u) && Pop(u).status == Success && Pop(u).chunk == View(s.pre + s.wr.queued, 1)
    ensures GetWriteable(s, size).chunk == View(s.pre, Requested(s, size)) && Requested(s, size) <= s.wr.queued
  {
    var p := HiddenThenCommittedIs(s, size, mem);
    GetWriteableNext(s, size);
  }

  // ---------------------------------------------------------------- drained while a head chunk is pending

  /** The reader takes everything while a head chunk is pending, by a commit or by Pop. */
  lemma DrainWhilePending<T>(s: Ring<T>, last: bool)
    requires Inv(s) && Pending(s)
    ensures var drained := s.(data := 0, logical := Size(s), rd := Pos(0, 0, 0));
            && (s.rd.queuedSize == s.data ==> ReadCommit(s, s.data, last).next == drained)
            && (s.data == 1 && Pops(s) ==> Pop(s).status == Success && Pop(s).next == drained)
  {
    if s.rd.queuedSize == s.data {
      ReadCommitNext(s, s.data, last);
    }
    if s.data == 1 && Pops(s) {
      PopNext(s);
    }
  }

  /** Any commit of the chunk then leaves the write position away from the end of the data. */
  lemma DrainWhilePendingMisplacesWriter<T>(s: Ring<T>, committed: Word, last: bool)
    requires Inv(s) && Pending(s) && committed <= s.wr.queuedSize
    ensures var drained := s.(data := 0, logical := Size(s), rd := Pos(0, 0, 0));
            var u := WriteCommit(drained, committed, last).next;
            && u.data == committed && u.rd.pos == 0 && u.logical == Size(s)
            && u.wr.pos == Wrap(s.logical + committed, Size(s)) != committed
            && (last ==> u == drained.(data := committed, wr := Pos(u.wr.pos, u.wr.pos, 0)))
  {
    assert (committed + 0) % WORD == committed;
    ModIsWrap(s.logical + committed, Size(s));
  }

  /** So the element pushed next is not the one the reader finds behind the chunk: that cell still
      holds what it held, whatever was pushed. */
  lemma DrainWhilePendingLosesPush<T>(s: Ring<T>, committed: Word, element: T)
    requires Inv(s) && Pending(s) && committed <= s.wr.queuedSize
    ensures var drained := s.(data := 0, logical := Size(s), rd := Pos(0, 0, 0));
            var u := WriteCommit(drained, committed, true).next;
            && Sane(u) && u.wr.pos < Size(u) && Push(u, element).status == Success
            && var v := Push(u, element).next;
               && v.data == committed + 1 && v.rd.pos == 0 && v.logical == Size(s)
               && v.mem[s.pre + committed] == s.mem[s.pre + committed]
               && v.mem[s.pre + u.wr.pos] == element
  {
    DrainWhilePendingMisplacesWriter(s, committed, true);
  }

  /** What the unsigned subtraction in GetDataSize and GetFreeDataSize yields. */
  function Difference(a: nat, b: nat): Word {
    (a - b) % WORD
  }

  // ---------------------------------------------------------------- writers commit beyond the reservation

  /** The bounds check lets an over-commit of a writer through. Only the amount changes, and for the
      last commit the queue of the position is forgotten. */
  lemma OverCommitIs<T>(s: Ring<T>, size: Word, last: bool)
    requires Inv(s) && s.wr.queuedSize < size && s.data + size <= s.logical
    ensures var wr := if last then Pos(s.wr.pos, s.wr.pos, 0) else s.wr;
            WriteCommit(s, size, last) == Outcome(s.(data := s.data + size, wr := wr), Success, Detached)
  {
    assert (size + s.data) % WORD == size + s.data;
  }

  /** The element pushed next, at once or after a Pop if the ring counts as full, is stored at the write
      position, which is still at the place behind the old data: `size` elements too early in the
      queue. While a head chunk is pending it is the hidden cell behind the shortened ring. */
  lemma OverCommitMisplacesPush<T>(s: Ring<T>, size: Word, last: bool, element: T)
    requires Inv(s) && s.wr.queuedSize < size && s.data + size <= s.logical
    requires last || s.wr.queuedSize == 0
    ensures var t := WriteCommit(s, size, last).next;
            && Sane(t) && t.data == s.data + size && t.wr.pos < Size(t)
            && (DataSize(t) != t.logical ==>
                  && Push(t, element).status == Success
                  && Push(t, element).next.mem[s.pre + s.wr.pos] == element)
            && (DataSize(t) == t.logical ==>
                  && Push(t, element).status == OutOfResources && Pop(t).status == Success
                  && var v := Pop(t).next;
                     && Sane(v) && v.wr.pos < Size(v) && Push(v, element).status == Success
                     && Push(v, element).next.mem[s.pre + s.wr.pos] == element)
    ensures s.pre + s.wr.pos == if Pending(s) then s.pre + s.logical else Cell(s, s.data)
  {
    OverCommitIs(s, size, last);
    var t := WriteCommit(s, size, last).next;
    if DataSize(t) == t.logical {
      FullPops(t);
    }
  }

  lemma FullPops<T>(t: Ring<T>)
    requires Sane(t) && t.rd.queuedSize == 0 && t.rd.pos == t.rd.queued < t.logical == t.data
    requires 2 * Size(t) < WORD
    ensures Pop(t).status == Success && Sane(Pop(t).next)
    ensures Pop(t).next == t.(data := t.data - 1, logical := Pop(t).next.logical, rd := Pop(t).next.rd)
    ensures Pop(t).next.rd.queuedSize == 0 && t.logical <= Pop(t).next.logical
  {
    if t.logical > 1 {
      ModIsWrap(t.rd.pos + 1, t.logical);
    } else {
      DivUnique(1, 1, 1, 0);
    }
  }

  /** A commit that is not the last leaves the cells reserved and counts all of them as unread. Where
      the ring cannot hold both, the free amount underflows. */
  lemma OverCommitExposesReservation<T>(s: Ring<T>, size: Word)
    requires Inv(s) && 0 < s.wr.queuedSize < size && s.data + size <= s.logical
    ensures var t := WriteCommit(s, size, false).next;
            && Sane(t) && t.wr == s.wr && s.data + s.wr.queuedSize < t.data
            && (t.data + t.wr.queuedSize > t.logical ==>
                  Difference(t.logical, t.data + t.wr.queuedSize) == WORD + t.logical - t.data - t.wr.queuedSize)
  {
    OverCommitIs(s, size, false);
  }

  /** A commit so large that the sum overflows passes the check and drops unread elements. */
  lemma OverflowingCommitDropsData<T>(s: Ring<T>, size: Word, last: bool)
    requires Inv(s) && s.data + size >= WORD
    ensures var o := WriteCommit(s, size, last);
            && o.status == Success && o.next.data == s.data + size - WORD < s.data
            && o.next.rd == s.rd && o.next.wr.pos == s.wr.pos
  {
    assert (size + s.data) % WORD == s.data + size - WORD;
  }

  // ---------------------------------------------------------------- the reader commits beyond the reservation

  /** An over-commit of the reader counts elements as consumed without moving the read position. The
      error code of the position reads as "wrapped", so a hidden tail comes back as well. */
  lemma OverReadIs<T>(s: Ring<T>, size: Word, last: bool)
    requires Inv(s) && s.rd.queuedSize < size <= s.data
    ensures var rd := if last then Pos(s.rd.pos, s.rd.pos, 0) else s.rd;
            ReadCommit(s, size, last)
              == Outcome(s.(data := s.data - size, logical := Size(s), rd := rd), Success, Detached)
  {
  }

  /** If elements are left and the loan has ended, Pop hands out the oldest one once more. In a ring of
      full size the ones left are the oldest, and the newest are lost. */
  lemma OverReadRepeats<T>(s: Ring<T>, size: Word, last: bool)
    requires Inv(s) && s.rd.queuedSize < size < s.data && (last || s.rd.queuedSize == 0)
    ensures var t := ReadCommit(s, size, last).next;
            && Sane(t) && t.data == s.data - size
            && Pop(t).status == Success && Pop(t).chunk == View(Cell(s, 0), 1)
            && (s.logical == Size(s) ==>
                  var kept := t.(wr := Pos(Wrap(t.rd.pos + t.data, t.logical), Wrap(t.rd.pos + t.data, t.logical), 0));
                  Inv(kept) && Contents(kept) == Contents(s)[..s.data - size])
  {
    OverReadIs(s, size, last);
  }

  /** If none is left, the element pushed next is answered by a Pop of the oldest one. */
  lemma OverReadOfAllRepeats<T>(s: Ring<T>, size: Word, last: bool, element: T)
    requires Inv(s) && s.rd.queuedSize < size == s.data && (last || s.rd.queuedSize == 0)
    requires s.wr.pos == s.wr.queued
    ensures var t := ReadCommit(s, size, last).next;
            && Sane(t) && t.wr.pos < Size(t) && Push(t, element).status == Success
            && var v := Push(t, element).next;
               && Sane(v) && v.data == 1 && v.mem[s.pre + s.wr.pos] == element
               && Pop(v).status == Success && Pop(v).chunk == View(Cell(s, 0), 1)
    ensures s.data < s.logical ==> s.pre + s.wr.pos != Cell(s, 0)
  {
    OverReadIs(s, size, last);
  }

  /** And so is any chunk that had been reserved, when it is committed. */
  lemma OverReadOfAllHidesChunk<T>(s: Ring<T>, size: Word, last: bool, committed: Word, end: bool)
    requires Inv(s) && s.rd.queuedSize < size == s.data && (last || s.rd.queuedSize == 0)
    requires 0 < committed <= s.wr.queuedSize
    ensures var t := ReadCommit(s, size, last).next;
            && 0 < t.logical && WriteCommit(t, committed, end).status == Success
            && var v := WriteCommit(t, committed, end).next;
               && Sane(v) && v.data == committed
               && Pop(v).status == Success && Pop(v).chunk == View(Cell(s, 0), 1)
  {
    OverReadIs(s, size, last);
  }

  /** A commit that does not end the loan leaves it as it was: the amount behind the loan shrinks by
      what was committed, or underflows. */
  lemma OverReadUnderLoan<T>(s: Ring<T>, size: Word)
    requires Inv(s) && s.rd.queuedSize < size <= s.data
    ensures var t := ReadCommit(s, size, false).next;
            && t.rd == s.rd && t.data == s.data - size
            && (s.rd.queuedSize <= s.data - size ==> Sane(t) && DataSize(t) == DataSize(s) - size)
            && (s.rd.queuedSize > s.data - size ==>
                  Difference(t.data, t.rd.queuedSize) == WORD + t.data - t.rd.queuedSize)
  {
    OverReadIs(s, size, false);
  }

  /** On a shortened ring the tail comes back although the read position did not wrap: elements behind
      the shortened end are then looked for in the hidden cells. */
  lemma OverReadRestoresTooEarly<T>(s: Ring<T>, size: Word, last: bool)
    requires Inv(s) && s.rd.queuedSize < size <= s.data && s.logical < Size(s)
    ensures var t := ReadCommit(s, size, last).next;
            && t.logical == Size(s) && t.rd.pos == s.rd.pos
            && (s.rd.pos + t.data > s.logical ==>
                  var behind := s.logical - s.rd.pos;
                  && behind < t.data && Cell(s, behind) == s.pre
                  && t.pre + Wrap(t.rd.pos + behind, t.logical) == s.pre + s.logical)
  {
    OverReadIs(s, size, last);
  }

  // ---------------------------------------------------------------- the other conditions

  /** Push into a ring without a free cell overwrites the first cell of the window, which is lent to
      the reader or reserved by a writer. */
  lemma PushWithoutRoomOverwrites<T>(s: Ring<T>, element: T)
    requires Inv(s) && Pushes(s) && FreeSize(s) == 0
    ensures Push(s, element).status == Success && Push(s, element).next.data == s.data + 1
    ensures Push(s, element).next.mem[Cell(s, 0)] == element
    ensures (s.data == s.logical && s.rd.queuedSize > 0) || (s.data == 0 && s.wr.queuedSize == s.logical)
  {
    PushNext(s, element);
  }

  /** Moving the read position while the whole ring is lent: the amount left underflows, and the
      reader cannot commit what it holds. */
  lemma MoveReadUnderLoan<T>(s: Ring<T>, newPos: Word, last: bool)
    requires Inv(s) && MovesRead(s, newPos) && s.rd.queuedSize != 0
    ensures var d := Distance(s.rd.pos, newPos, Size(s));
            var t := DisplaceRead(s, newPos).next;
            && s.rd.queuedSize == s.data == Size(s)
            && DisplaceRead(s, newPos).status == Success && t.data == s.data - d
            && Difference(t.data, t.rd.queuedSize) == WORD - d
            && 0 < t.logical && ReadCommit(t, s.rd.queuedSize, last).status == Underrun
  {
    DisplaceReadNext(s, newPos);
  }

  /** The same for the write position while the whole ring is reserved: the free amount underflows,
      and the writer cannot commit its reservation. */
  lemma MoveWriteUnderLoan<T>(s: Ring<T>, newPos: Word, last: bool)
    requires Inv(s) && MovesWrite(s, newPos) && s.wr.queuedSize != 0
    ensures var d := Distance(s.wr.pos, newPos, Size(s));
            var t := DisplaceWrite(s, newPos).next;
            && s.wr.queuedSize == Size(s) && s.data == 0
            && DisplaceWrite(s, newPos).status == Success && t.data == d
            && Difference(t.logical, t.data + t.wr.queuedSize) == WORD - d
            && 0 < t.logical && WriteCommit(t, s.wr.queuedSize, last).status == Overrun
  {
    DisplaceWriteNext(s, newPos);
  }

  /** An unwound request for more than is unread is lent in full, underflows the amount left, and
      cannot be committed. */
  lemma UnwindBeyondData<T>(s: Ring<T>, max: Word, last: bool)
    requires Inv(s) && Unwinds(s, max) && max > s.data
    ensures var o := Unwind(s, max);
            && o.status == Success && o.chunk.View? && o.chunk.size == max
            && Difference(o.next.data, o.next.rd.queuedSize) == WORD - (max - s.data)
            && 0 < o.next.logical && ReadCommit(o.next, max, last).status == Underrun
  {
    UnwindNext(s, max);
  }

  /** Re-initialising with more elements than cells is accepted as it is. */
  lemma ReInitializeBeyondSize<T>(s: Ring<T>, readPosition: Word, data: Word)
    requires Inv(s) && readPosition <= Size(s) < data
    ensures var o := ReInitialize(s, readPosition, data);
            && o.status == Success && o.next.data == data > o.next.logical == Size(s)
            && Difference(o.next.logical, o.next.data) == WORD - (data - Size(s))
  {
  }

  /** Inserting nothing is possible only into an empty ring, and fills it. */
  lemma InsertNothingFills<T>(s: Ring<T>)
    requires Inv(s) && InsertData(s, 0).status == Success
    ensures s.data == 0 && InsertData(s, 0).next.data == Size(s)
  {
    DisplaceWriteNext(s, InsertTarget(s, 0));
    NoDistanceIsFull(s.wr.pos, Size(s));
  }

  lemma NoDistanceIsFull(pos: nat, n: nat)
    requires pos < n && 2 * n < WORD
    ensures (pos + 0) % WORD % n == pos && Distance(pos, pos, n) == n
  {
    assert (pos + 0) % WORD == pos;
    ModIsWrap(pos, n);
    DivUnique(n, n, 1, 0);
  }

  // ---------------------------------------------------------------- one small ring for each

  /** A ring of four cells, in states its own calls lead to. */
  function Four(data: nat, logical: nat, rd: Pos, wr: Pos): Ring<int> {
    Ring([10, 11, 12, 13], 0, data, logical, rd, wr)
  }

  /** A fresh ring. */
  lemma InsertNothingExample()
    ensures var s := Four(0, 4, Pos(0, 0, 0), Pos(0, 0, 0));
            && Inv(s) && InsertData(s, 0).status == Success && InsertData(s, 0).next.data == 4
  {
  }

  /** A fresh ring. */
  lemma ReInitializeExample()
    ensures var s := Four(0, 4, Pos(0, 0, 0), Pos(0, 0, 0));
            && Inv(s) && ReInitialize(s, 0, 5).status == Success && !Inv(ReInitialize(s, 0, 5).next)
  {
  }

  /** Four elements pushed, all of them lent to the reader. */
  lemma PushExample(element: int)
    ensures var s := Four(4, 4, Pos(0, 0, 4), Pos(0, 0, 0));
            && Inv(s) && Push(s, element).status == Success && !Inv(Push(s, element).next)
            && Push(s, element).next.mem == [element, 11, 12, 13]
  {
  }

  /** The same ring. */
  lemma MoveReadExample()
    ensures var s := Four(4, 4, Pos(0, 0, 4), Pos(0, 0, 0));
            && Inv(s) && DisplaceRead(s, 1).status == Success && !Inv(DisplaceRead(s, 1).next)
  {
  }

  /** An empty ring, all of it reserved for writing. */
  lemma MoveWriteExample()
    ensures var s := Four(0, 4, Pos(0, 0, 0), Pos(0, 0, 4));
            && Inv(s) && DisplaceWrite(s, 1).status == Success && !Inv(DisplaceWrite(s, 1).next)
  {
  }

  /** Two elements pushed, nothing reserved on either side. */
  lemma OverCommitExample(last: bool)
    ensures var s := Four(2, 4, Pos(0, 0, 0), Pos(2, 2, 0));
            && Inv(s) && WriteCommit(s, 1, last).status == Success && !Inv(WriteCommit(s, 1, last).next)
  {
    WriteCommitKeepsInvIff(Four(2, 4, Pos(0, 0, 0), Pos(2, 2, 0)), 1, last);
  }

  /** The same ring. */
  lemma OverflowExample(last: bool)
    ensures var s := Four(2, 4, Pos(0, 0, 0), Pos(2, 2, 0));
            && Inv(s) && WriteCommit(s, WORD - 1, last).status == Success
            && WriteCommit(s, WORD - 1, last).next.data == 1 && !Inv(WriteCommit(s, WORD - 1, last).next)
  {
    WriteCommitKeepsInvIff(Four(2, 4, Pos(0, 0, 0), Pos(2, 2, 0)), WORD - 1, last);
  }

  /** The same ring. */
  lemma OverReadExample(last: bool)
    ensures var s := Four(2, 4, Pos(0, 0, 0), Pos(2, 2, 0));
            && Inv(s) && ReadCommit(s, 1, last).status == Success && !Inv(ReadCommit(s, 1, last).next)
  {
    ReadCommitKeepsInvIff(Four(2, 4, Pos(0, 0, 0), Pos(2, 2, 0)), 1, last);
  }

  /** A full ring of which the last cell is hidden: Pop goes on with the 13 in it instead of the 10. */
  lemma OverReadHiddenExample(last: bool)
    ensures var s := Four(3, 3, Pos(2, 2, 0), Pos(2, 2, 0));
            && Inv(s) && Contents(s) == [12, 10, 11]
            && var t := ReadCommit(s, 1, last).next;
               && Pop(t).chunk == View(2, 1) && Pop(Pop(t).next).chunk == View(3, 1)
  {
    OverReadIs(Four(3, 3, Pos(2, 2, 0), Pos(2, 2, 0)), 1, last);
  }

  /** Two preceding cells; three elements pushed and popped, then two pushed across the end. */
  lemma UnwindExample()
    ensures var s := Ring([0, 1, 10, 11, 12, 13], 2, 2, 4, Pos(3, 3, 0), Pos(1, 1, 0));
            && Inv(s) && Unwind(s, 3).status == Success && Unwind(s, 3).chunk == View(1, 3)
            && !Inv(Unwind(s, 3).next)
  {
    var s := Ring([0, 1, 10, 11, 12, 13], 2, 2, 4, Pos(3, 3, 0), Pos(1, 1, 0));
    UnwindNext(s, 3);
    UnwindKeepsInvIff(s, 3);
  }

  /** Three elements pushed and popped; then two cells do not fit behind position 3. The writer
      stores 20 and 21 and commits; Pop takes the 13 from the hidden cell. */
  lemma HideExample()
    ensures var s := Four(0, 4, Pos(3, 3, 0), Pos(3, 3, 0));
            && Inv(s) && GetWriteable(s, 2).chunk == View(0, 2) && !Inv(GetWriteable(s, 2).next)
            && HidesWhileDrained(s, 2)
            && Pop(HiddenThenCommitted(s, 2, [20, 21, 12, 13])).chunk == View(3, 1)
  {
    var s := Four(0, 4, Pos(3, 3, 0), Pos(3, 3, 0));
    HideWhileEmptyPopsHiddenCell(s, 2, [20, 21, 12, 13]);
    GetWriteableKeepsInvIff(s, 2);
  }

  /** Three elements pushed, two popped, two cells reserved at the head; then the last one is popped
      before the chunk is committed. */
  lemma DrainExample()
    ensures var s := Four(1, 3, Pos(2, 2, 0), Pos(3, 2, 2));
            && Inv(s) && Pending(s) && Pop(s).status == Success && !Inv(Pop(s).next)
            && WriteCommit(Pop(s).next, 2, true).next.wr.pos == 1
  {
  }
}
