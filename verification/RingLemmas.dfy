/**
 What each operation of the ring does to its window, and exactly when it keeps the invariant.
 Every lemma starts from an arbitrary valid ring.
 */
module RingLemmas {
  import opened Words
  import opened RingModel

  /** The first `count` cells of the window are the same cells and hold the same values. */
  ghost predicate SameCells<T>(s: Ring<T>, t: Ring<T>, count: nat)
    requires Inv(s) && Inv(t)
  {
    && count <= s.logical && count <= t.logical
    && forall i :: 0 <= i < count ==> Cell(t, i) == Cell(s, i) && t.mem[Cell(t, i)] == s.mem[Cell(s, i)]
  }

  /** The chunk is the run of window cells starting at place `at`. */
  ghost predicate CoversCells<T>(s: Ring<T>, chunk: View, at: nat)
    requires Inv(s)
  {
    && chunk.View?
    && chunk.size > 0
    && at + chunk.size <= s.logical
    && s.pre <= chunk.start && chunk.start + chunk.size <= |s.mem|
    && forall i :: at <= i < at + chunk.size ==> Cell(s, i) == chunk.start + (i - at)
  }

  lemma WindowKept<T>(s: Ring<T>, t: Ring<T>)
    requires Inv(s) && Inv(t)
    requires SameCells(s, t, Min(|Window(s)|, |Window(t)|))
    ensures |Window(s)| <= |Window(t)| ==> Window(s) <= Window(t)
    ensures |Window(t)| <= |Window(s)| ==> Window(t) == Window(s)[..|Window(t)|]
  {
  }

  lemma WindowDropped<T>(s: Ring<T>, t: Ring<T>, k: nat)
    requires Inv(s) && Inv(t)
    requires k + |Window(t)| == |Window(s)|
    requires forall i :: 0 <= i < |Window(t)| ==> t.mem[Cell(t, i)] == s.mem[Cell(s, k + i)]
    ensures Window(t) == Window(s)[k..]
  {
  }

  // ---------------------------------------------------------------- positions

  /** Within the reservation a commit moves the position by `size` cells round the ring, tells whether
      it passed the end, and leaves the end of the reservation where it is. */
  lemma CommitQueuedAdvances(p: Pos, size: nat, boundary: nat)
    requires p.pos < boundary && size <= p.queuedSize <= boundary
    requires p.queued == Wrap(p.pos + p.queuedSize, boundary)
    ensures var (q, wrapped) := CommitQueued(p, size, boundary);
            && q.pos < boundary && q.pos == p.pos + size - (if wrapped then boundary else 0)
            && q.queued == p.queued == Wrap(q.pos + q.queuedSize, boundary)
            && q.queuedSize == p.queuedSize - size
  {
    ModIsWrap(p.pos + size, boundary);
  }

  // ---------------------------------------------------------------- reading

  lemma GetReadableNext<T>(s: Ring<T>, size: nat)
    requires Inv(s)
    ensures var o := GetReadable(s, size);
            var k := if size == 0 then MaxReadable(s) else size;
            o == if 0 < k <= MaxReadable(s) then
                   Outcome(s.(rd := Pos(s.rd.pos, Wrap(s.rd.queued + k, s.logical), s.rd.queuedSize + k)),
                           Success, View(s.pre + s.rd.queued, k))
                 else Refuse(s, OutOfResources)
  {
    var k := if size == 0 then MaxReadable(s) else size;
    if k <= MaxReadable(s) {
      ModIsWrap(s.rd.queued + k, s.logical);
    }
  }

  lemma GetReadableGrants<T>(s: Ring<T>, size: nat)
    requires Inv(s)
    ensures var o := GetReadable(s, size);
            && Inv(o.next)
            && o.next == s.(rd := o.next.rd)
            && SameCells(s, o.next, s.logical)
            && (o.status == Success ==>
                  && CoversCells(s, o.chunk, s.rd.queuedSize)
                  && (size != 0 ==> o.chunk.size == size)
                  && o.next.rd.queuedSize == s.rd.queuedSize + o.chunk.size <= s.data)
            && (o.status != Success ==> o.next == s)
  {
    GetReadableNext(s, size);
  }

  /** A read request is refused exactly when the elements are missing or not contiguous. */
  lemma GetReadableRefuses<T>(s: Ring<T>, size: nat)
    requires Inv(s)
    ensures GetReadable(s, size).status == Success <==>
              var k := if size == 0 then 1 else size;
              && s.rd.queuedSize + k <= s.data
              && forall i :: s.rd.queuedSize <= i < s.rd.queuedSize + k ==>
                   Cell(s, i) == Cell(s, s.rd.queuedSize) + (i - s.rd.queuedSize)
  {
    var k := if size == 0 then 1 else size;
    if s.rd.queuedSize + k <= s.data && k > s.logical - s.rd.queued {
      assert Cell(s, s.rd.queuedSize + (s.logical - s.rd.queued)) == s.pre;
    }
  }

  lemma ReadCommitNext<T>(s: Ring<T>, size: Word, last: bool)
    requires Inv(s) && size <= s.rd.queuedSize
    ensures var pos := Wrap(s.rd.pos + size, s.logical);
            ReadCommit(s, size, last) == Outcome(
              s.(data := s.data - size,
                 logical := if s.rd.pos + size >= s.logical then Size(s) else s.logical,
                 rd := if last then Pos(pos, pos, 0) else Pos(pos, s.rd.queued, s.rd.queuedSize - size)),
              Success, Detached)
  {
    ModIsWrap(s.rd.pos + size, s.logical);
  }

  /** A read commit keeps the invariant exactly when it stays within the reservation and does not
      drain the ring while a head chunk is pending. The last disjunct is an over-commit of a whole
      lap, after which the counters agree again by accident. */
  lemma ReadCommitKeepsInvIff<T>(s: Ring<T>, size: Word, last: bool)
    requires Inv(s) && size <= s.data
    ensures Inv(ReadCommit(s, size, last).next) <==>
              || (size <= s.rd.queuedSize && !(Pending(s) && size == s.data))
              || (s.rd.queuedSize < size == s.logical && (last || s.rd.queuedSize == 0))
  {
    if size <= s.rd.queuedSize {
      ReadCommitNext(s, size, last);
    }
  }

  /** A read commit drops a prefix of the window, across the wrap and the return of the hidden tail:
      the remaining elements stay in their cells. */
  lemma ReadCommitDrops<T>(s: Ring<T>, size: Word, last: bool)
    requires Inv(s) && size <= s.rd.queuedSize
    requires !(Pending(s) && size == s.data)
    ensures var o := ReadCommit(s, size, last);
            && o.status == Success && Inv(o.next)
            && (forall i :: 0 <= i < |Window(s)| - size ==> Cell(o.next, i) == Cell(s, size + i))
            && Window(o.next) == Window(s)[size..]
  {
    ReadCommitKeepsInvIff(s, size, last);
    ReadCommitNext(s, size, last);
    ReadCommitCells(s, ReadCommit(s, size, last).next, size);
    WindowDropped(s, ReadCommit(s, size, last).next, size);
  }

  lemma ReadCommitCells<T>(s: Ring<T>, t: Ring<T>, size: nat)
    requires Inv(s) && Inv(t) && size <= s.data
    requires t.mem == s.mem && t.pre == s.pre && t.data == s.data - size && t.wr == s.wr
    requires t.rd.pos == Wrap(s.rd.pos + size, s.logical)
    requires t.logical == if s.rd.pos + size >= s.logical then Size(s) else s.logical
    ensures forall i :: 0 <= i < |Window(s)| - size ==> Cell(t, i) == Cell(s, size + i)
  {
  }

  // ---------------------------------------------------------------- writing

  /** The hide branch is unreachable once the window wraps. */
  lemma HideOnlyUnwrapped<T>(s: Ring<T>, size: nat)
    requires Inv(s) && TakesHead(s, size)
    ensures s.rd.pos + s.data + s.wr.queuedSize == s.wr.queued < s.logical
    ensures s.wr.pos == s.rd.pos + s.data
  {
  }

  lemma GetWriteableNext<T>(s: Ring<T>, size: nat)
    requires Inv(s)
    ensures var k := Requested(s, size);
            GetWriteable(s, size) ==
              if TakesHead(s, size) then
                Outcome(s.(logical := s.wr.queued, wr := Pos(s.wr.pos, k, s.wr.queuedSize + k)),
                        Success, View(s.pre, k))
              else if 0 < k <= FreeSize(s) && s.wr.queued + k <= s.logical then
                Outcome(s.(wr := Pos(s.wr.pos, Wrap(s.wr.queued + k, s.logical), s.wr.queuedSize + k)),
                        Success, View(s.pre + s.wr.queued, k))
              else Refuse(s, OutOfResources)
  {
    var k := Requested(s, size);
    if s.wr.queued + k <= s.logical {
      ModIsWrap(s.wr.queued + k, s.logical);
    }
  }

  /** Reserving keeps the invariant unless the tail is skipped while every element, committed or
      reserved, is lent to the reader (in particular when the ring is empty). */
  lemma GetWriteableKeepsInvIff<T>(s: Ring<T>, size: nat)
    requires Inv(s)
    ensures Inv(GetWriteable(s, size).next) <==>
              !(TakesHead(s, size) && s.rd.queuedSize == s.data + s.wr.queuedSize)
  {
    GetWriteableNext(s, size);
    if TakesHead(s, size) {
      HideOnlyUnwrapped(s, size);
    }
  }

  /** A reservation extends the window by one contiguous chunk; all cells of the old window keep
      their places and values, also when the modulus shrinks. */
  lemma GetWriteableGrants<T>(s: Ring<T>, size: nat)
    requires Inv(s)
    requires TakesHead(s, size) ==> s.rd.queuedSize < |Window(s)|
    ensures var o := GetWriteable(s, size);
            && Inv(o.next)
            && SameCells(s, o.next, |Window(s)|)
            && Window(s) <= Window(o.next)
            && (o.status == Success ==>
                  && CoversCells(o.next, o.chunk, |Window(s)|)
                  && (size != 0 ==> o.chunk.size == size)
                  && |Window(o.next)| == |Window(s)| + o.chunk.size)
            && (o.status != Success ==> o.next == s)
  {
    GetWriteableKeepsInvIff(s, size);
    GetWriteableNext(s, size);
    var o := GetWriteable(s, size);
    if o.status == Success {
      GetWriteableCells(s, o.next, o.chunk, size);
      WindowKept(s, o.next);
    }
  }

  lemma GetWriteableCells<T>(s: Ring<T>, t: Ring<T>, chunk: View, size: nat)
    requires Inv(s) && Inv(t) && chunk.View? && 0 < chunk.size <= FreeSize(s)
    requires t.mem == s.mem && t.pre == s.pre && t.data == s.data && t.rd == s.rd
    requires t.wr.queuedSize == s.wr.queuedSize + chunk.size
    requires || (TakesHead(s, size) && t.logical == s.wr.queued && chunk.start == s.pre)
             || (s.wr.queued + chunk.size <= s.logical == t.logical && chunk.start == s.pre + s.wr.queued)
    ensures SameCells(s, t, |Window(s)|)
    ensures CoversCells(t, chunk, |Window(s)|)
  {
    if t.logical != s.logical {
      HideOnlyUnwrapped(s, size);
    }
  }

  /** A write reservation is refused exactly when there is no contiguous free run of that size at
      the queued write position, nor at the head below the read position. */
  lemma GetWriteableRefuses<T>(s: Ring<T>, size: nat)
    requires Inv(s) && size > 0
    ensures GetWriteable(s, size).status == Success <==>
              && |Window(s)| + size <= s.logical
              && (s.wr.queued + size <= s.logical || size <= s.rd.pos)
  {
  }

  lemma WriteCommitNext<T>(s: Ring<T>, size: Word, last: bool)
    requires Inv(s) && size <= s.wr.queuedSize
    ensures var pos := Wrap(s.wr.pos + size, s.logical);
            WriteCommit(s, size, last) == Outcome(
              s.(data := s.data + size,
                 wr := if last then Pos(pos, pos, 0) else Pos(pos, s.wr.queued, s.wr.queuedSize - size)),
              Success, Detached)
  {
    ModIsWrap(s.wr.pos + size, s.logical);
    assert (size + s.data) % WORD == size + s.data;
  }

  /** A write commit keeps the invariant exactly when it stays within the reservation. The last two
      disjuncts are over-commits that change the amount by a whole lap: an empty ring becomes full,
      or, through the 32-bit overflow of the bounds check, a full ring becomes empty. */
  lemma WriteCommitKeepsInvIff<T>(s: Ring<T>, size: Word, last: bool)
    requires Inv(s) && WriteCommit(s, size, last).status == Success
    ensures Inv(WriteCommit(s, size, last).next) <==>
              || size <= s.wr.queuedSize
              || (s.data == 0 && size == s.logical && (last || s.wr.queuedSize == 0))
              || (s.data == s.logical && size == WORD - s.logical && s.rd.queuedSize == 0)
  {
    if size <= s.wr.queuedSize {
      WriteCommitNext(s, size, last);
    } else {
      var amount, wr := OverCommitNext(s, size, last);
      OverCommitKeepsInvIff(s, amount, wr);
    }
  }

  lemma OverCommitNext<T>(s: Ring<T>, size: Word, last: bool) returns (amount: nat, wr: Pos)
    requires Inv(s) && WriteCommit(s, size, last).status == Success && size > s.wr.queuedSize
    ensures WriteCommit(s, size, last).next == s.(data := amount, wr := wr)
    ensures amount == if s.data + size < WORD then s.data + size else s.data + size - WORD
    ensures wr == if last then ResetQueued(s.wr) else s.wr
    ensures amount <= s.logical
  {
    amount := (s.data + size) % WORD;
    wr := if last then ResetQueued(s.wr) else s.wr;
  }

  lemma OverCommitKeepsInvIff<T>(s: Ring<T>, amount: nat, wr: Pos)
    requires Inv(s) && amount <= s.logical && amount != s.data
    requires wr == s.wr || wr == ResetQueued(s.wr)
    ensures Inv(s.(data := amount, wr := wr)) <==>
              || (s.data == 0 && amount == s.logical && wr.queuedSize == 0)
              || (s.data == s.logical && amount == 0 && s.rd.queuedSize == 0)
  {
  }

  /** A write commit moves the boundary between unread and staged elements: it appends exactly what
      the granted cells hold, in ring order. */
  lemma WriteCommitAppends<T>(s: Ring<T>, size: Word, last: bool)
    requires Inv(s) && size <= s.wr.queuedSize
    ensures var o := WriteCommit(s, size, last);
            && o.status == Success && Inv(o.next)
            && SameCells(s, o.next, s.logical)
            && Window(o.next) == (if last then Window(s)[..s.data + size] else Window(s))
            && Contents(o.next) == Contents(s) + Staged(s)[..size]
  {
    WriteCommitNext(s, size, last);
    WriteCommitKeepsInvIff(s, size, last);
    CommittedParts(s, WriteCommit(s, size, last).next, size);
  }

  lemma CommittedParts<T>(s: Ring<T>, t: Ring<T>, size: nat)
    requires Inv(s) && Inv(t) && size <= s.wr.queuedSize
    requires t == s.(data := s.data + size, wr := t.wr)
    requires t.wr.queuedSize == 0 || t.wr.queuedSize == s.wr.queuedSize - size
    ensures SameCells(s, t, s.logical)
    ensures t.wr.queuedSize == 0 ==> Window(t) == Window(s)[..s.data + size]
    ensures t.wr.queuedSize == s.wr.queuedSize - size ==> Window(t) == Window(s)
    ensures Contents(t) == Contents(s) + Staged(s)[..size]
  {
    WindowKept(s, t);
  }

  // ---------------------------------------------------------------- single elements

  lemma PushNext<T>(s: Ring<T>, element: T)
    requires Inv(s) && Push(s, element).status == Success
    ensures s.wr.pos == s.wr.queued < s.logical
    ensures var pos := Wrap(s.wr.pos + 1, s.logical);
            Push(s, element).next ==
              s.(mem := s.mem[s.pre + s.wr.pos := element], data := s.data + 1,
                 wr := Pos(pos, pos, s.wr.queuedSize))
  {
    if 1 < s.logical {
      ModIsWrap(s.wr.pos + 1, s.logical);
    }
  }

  /** Push checks neither for queued reads nor for a reservation of the whole ring; it keeps the
      invariant exactly when some cell is neither unread nor reserved. */
  lemma PushKeepsInvIff<T>(s: Ring<T>, element: T)
    requires Inv(s) && Push(s, element).status == Success
    ensures Inv(Push(s, element).next) <==> FreeSize(s) > 0
  {
    PushNext(s, element);
  }

  lemma PushAppends<T>(s: Ring<T>, element: T)
    requires Inv(s) && Push(s, element).status == Success && FreeSize(s) > 0
    ensures var t := Push(s, element).next;
            && s.wr.queuedSize == 0
            && Inv(t) && t.logical == s.logical
            && SameCells(s, t, s.data)
            && Contents(t) == Contents(s) + [element]
            && t.rd == s.rd && t.wr.queuedSize == 0
  {
    PushKeepsInvIff(s, element);
    PushNext(s, element);
    var t := Push(s, element).next;
    assert Cell(s, s.data) == s.pre + s.wr.pos;
    forall i | 0 <= i < s.data
      ensures Cell(t, i) == Cell(s, i) && t.mem[Cell(t, i)] == s.mem[Cell(s, i)]
    {
      CellsAreDistinct(s, i, s.data);
    }
  }

  lemma PopNext<T>(s: Ring<T>)
    requires Inv(s) && Pop(s).status == Success
    ensures s.rd.queuedSize == 0 < s.data
    ensures var wraps := s.rd.pos + 1 == s.logical;
            var pos := if wraps then 0 else s.rd.pos + 1;
            Pop(s) == Outcome(s.(data := s.data - 1,
                                 logical := if wraps then Size(s) else s.logical,
                                 rd := Pos(pos, pos, 0)),
                              Success, View(s.pre + s.rd.pos, 1))
  {
    if 1 < s.logical {
      ModIsWrap(s.rd.pos + 1, s.logical);
    }
  }

  lemma PopKeepsInvIff<T>(s: Ring<T>)
    requires Inv(s) && Pop(s).status == Success
    ensures Inv(Pop(s).next) <==> !(Pending(s) && s.data == 1)
  {
    PopNext(s);
  }

  /** Pop hands out the oldest element. */
  lemma PopDrops<T>(s: Ring<T>)
    requires Inv(s) && Pop(s).status == Success && !(Pending(s) && s.data == 1)
    ensures var o := Pop(s);
            && Inv(o.next) && o.next.mem == s.mem
            && o.next.data == s.data - 1 && o.next.wr == s.wr && o.next.rd.queuedSize == 0
            && s.mem[o.chunk.start] == Contents(s)[0]
            && (forall i :: 0 <= i < |Window(s)| - 1 ==> Cell(o.next, i) == Cell(s, 1 + i))
            && Window(o.next) == Window(s)[1..]
  {
    PopKeepsInvIff(s);
    PopNext(s);
    assert Cell(s, 0) == s.pre + s.rd.pos;
    ReadCommitCells(s, Pop(s).next, 1);
    WindowDropped(s, Pop(s).next, 1);
  }

  // ---------------------------------------------------------------- moving positions directly

  lemma DisplaceReadNext<T>(s: Ring<T>, newPos: Word)
    requires Inv(s) && DisplaceRead(s, newPos).status == Success
    ensures s.logical == Size(s) && s.rd.queued == s.rd.pos
    ensures var d := Distance(s.rd.pos, newPos, Size(s));
            var pos := Wrap(s.rd.pos + d, s.logical);
            1 <= d <= s.data
            && DisplaceRead(s, newPos).next == s.(data := s.data - d, rd := Pos(pos, pos, s.rd.queuedSize))
  {
    DistanceReaches(s.rd.pos, newPos, Size(s));
  }

  /** Moving the read position keeps the invariant exactly when nothing is queued for reading; the
      guard in SafeSet misses a queue of the whole ring. */
  lemma DisplaceReadKeepsInvIff<T>(s: Ring<T>, newPos: Word)
    requires Inv(s) && DisplaceRead(s, newPos).status == Success
    ensures Inv(DisplaceRead(s, newPos).next) <==> s.rd.queuedSize == 0
  {
    DisplaceReadNext(s, newPos);
  }

  lemma DisplaceReadDrops<T>(s: Ring<T>, newPos: Word)
    requires Inv(s) && DisplaceRead(s, newPos).status == Success && s.rd.queuedSize == 0
    ensures var t := DisplaceRead(s, newPos).next;
            var d := Distance(s.rd.pos, newPos, Size(s));
            && Inv(t) && 1 <= d <= s.data && t.data == s.data - d
            && t.mem == s.mem && t.wr == s.wr && t.rd.queuedSize == 0
            && (forall i :: 0 <= i < |Window(s)| - d ==> Cell(t, i) == Cell(s, d + i))
            && Window(t) == Window(s)[d..]
  {
    DisplaceReadNext(s, newPos);
    DisplaceReadKeepsInvIff(s, newPos);
    var d := Distance(s.rd.pos, newPos, Size(s));
    ReadCommitCells(s, DisplaceRead(s, newPos).next, d);
    WindowDropped(s, DisplaceRead(s, newPos).next, d);
  }

  lemma DisplaceWriteNext<T>(s: Ring<T>, newPos: Word)
    requires Inv(s) && DisplaceWrite(s, newPos).status == Success
    ensures s.logical == Size(s) && s.wr.pos == s.wr.queued < s.logical
    ensures var d := Distance(s.wr.pos, newPos, Size(s));
            var pos := Wrap(s.wr.pos + d, s.logical);
            1 <= d <= s.logical - s.data
            && DisplaceWrite(s, newPos).next == s.(data := s.data + d, wr := Pos(pos, pos, s.wr.queuedSize))
  {
    DistanceReaches(s.wr.pos, newPos, Size(s));
  }

  lemma DisplaceWriteKeepsInvIff<T>(s: Ring<T>, newPos: Word)
    requires Inv(s) && DisplaceWrite(s, newPos).status == Success
    ensures Inv(DisplaceWrite(s, newPos).next) <==> s.wr.queuedSize == 0
  {
    DisplaceWriteNext(s, newPos);
  }

  /** Moving the write position appends the cells it passes over, with what they happen to hold. */
  lemma DisplaceWriteAppends<T>(s: Ring<T>, newPos: Word)
    requires Inv(s) && DisplaceWrite(s, newPos).status == Success && s.wr.queuedSize == 0
    ensures var t := DisplaceWrite(s, newPos).next;
            var d := Distance(s.wr.pos, newPos, Size(s));
            && Inv(t) && t.data == s.data + d <= s.logical && t.wr.queuedSize == 0
            && t.mem == s.mem && t.rd == s.rd && t.logical == s.logical
            && SameCells(s, t, s.logical)
            && Contents(t) == Contents(s) + seq(d, i requires 0 <= i < d => s.mem[Cell(s, s.data + i)])
  {
    DisplaceWriteNext(s, newPos);
    DisplaceWriteKeepsInvIff(s, newPos);
    ExtendedContents(s, DisplaceWrite(s, newPos).next, Distance(s.wr.pos, newPos, Size(s)));
  }

  lemma ExtendedContents<T>(s: Ring<T>, t: Ring<T>, d: nat)
    requires Inv(s) && Inv(t) && t == s.(data := s.data + d, wr := t.wr)
    ensures SameCells(s, t, s.logical)
    ensures Contents(t) == Contents(s) + seq(d, i requires 0 <= i < d => s.mem[Cell(s, s.data + i)])
  {
    var behind := seq(d, i requires 0 <= i < d => s.mem[Cell(s, s.data + i)]);
    forall i | 0 <= i < t.data
      ensures Contents(t)[i] == (Contents(s) + behind)[i]
    {
      ElementAt(t, i);
      assert Cell(t, i) == Cell(s, i);
      if i < s.data {
        ElementAt(s, i);
      } else {
        assert behind[i - s.data] == s.mem[Cell(s, s.data + (i - s.data))];
      }
    }
  }

  lemma ElementAt<T>(s: Ring<T>, i: nat)
    requires Inv(s) && i < s.data
    ensures Contents(s)[i] == s.mem[Cell(s, i)]
  {
  }

  /** InsertData(size) appends `size` elements exactly for sizes from one to the ring size: size 0
      is taken for a full lap, and larger sizes lose their whole laps. */
  lemma InsertDataAppendsIff<T>(s: Ring<T>, size: Word)
    requires Inv(s) && InsertData(s, size).status == Success
    ensures InsertData(s, size).next.data == s.data + size <==> 1 <= size <= Size(s)
  {
    DisplaceWriteNext(s, InsertTarget(s, size));
    if 1 <= size <= Size(s) {
      AdvanceDistance(s.wr.pos, size, Size(s));
    }
  }

  lemma AdvanceDistance(from: nat, size: nat, n: nat)
    requires from < n && 1 <= size <= n && 2 * n < WORD
    ensures Distance(from, (from + size) % WORD % n, n) == size
  {
    assert (from + size) % WORD == from + size;
    ModIsWrap(from + size, n);
    DistanceReaches(from, Wrap(from + size, n), n);
    ModIsWrap(Wrap(from + size, n), n);
  }

  // ---------------------------------------------------------------- unwinding

  /** The branch that copies the tail below the array. */
  predicate Unwinds<T>(s: Ring<T>, max: nat)
    requires Inv(s)
  {
    && s.rd.queuedSize == 0
    && Wraps(s)
    && MaxReadable(s) < UnwindRequest(s, max)
    && MaxReadable(s) <= s.pre && s.pre != 0
  }

  lemma UnwindNext<T>(s: Ring<T>, max: nat)
    requires Inv(s) && Unwinds(s, max)
    ensures var k := s.logical - s.rd.pos;
            var request := UnwindRequest(s, max);
            var t := Unwind(s, max).next;
            && Unwind(s, max) == Outcome(t, Success, View(s.pre - k, request))
            && k == MaxReadable(s)
            && |t.mem| == |s.mem|
            && t.mem[s.pre..] == s.mem[s.pre..]
            && t.mem[s.pre - k..s.pre] == s.mem[s.pre + s.rd.pos..s.pre + s.logical]
            && t == s.(mem := t.mem, rd := Pos(s.rd.pos, (s.rd.queued + request) % s.logical, request))
  {
  }

  /** Without a reservation for reading, unwinding keeps the invariant exactly when it does not take
      the copying branch with a request for more than there is: that branch does not clamp. */
  lemma UnwindKeepsInvIff<T>(s: Ring<T>, max: nat)
    requires Inv(s)
    ensures Inv(Unwind(s, max).next) <==> (Unwinds(s, max) ==> UnwindRequest(s, max) <= s.data)
  {
    if Unwinds(s, max) {
      UnwindNext(s, max);
      if UnwindRequest(s, max) <= s.data {
        ModIsWrap(s.rd.queued + UnwindRequest(s, max), s.logical);
      }
    } else {
      GetReadableGrants(s, Min(UnwindRequest(s, max), MaxReadable(s)));
    }
  }

  /** The copying branch answers with one contiguous region, across the border of the preceding
      array and the ring, that holds the first `request` unread elements in order; the ring itself
      is left as it was. */
  lemma UnwindShowsPrefix<T>(s: Ring<T>, max: nat)
    requires Inv(s) && Unwinds(s, max) && UnwindRequest(s, max) <= s.data
    ensures var o := Unwind(s, max);
            && Inv(o.next) && SameCells(s, o.next, s.logical)
            && o.chunk.View? && o.chunk.size == UnwindRequest(s, max)
            && o.chunk.start < s.pre < o.chunk.start + o.chunk.size <= |o.next.mem|
            && o.next.mem[o.chunk.start..o.chunk.start + o.chunk.size] == Contents(s)[..o.chunk.size]
            && Window(o.next) == Window(s) && o.next.data == s.data
            && o.next.rd.queuedSize == o.chunk.size
  {
    UnwindNext(s, max);
    UnwindKeepsInvIff(s, max);
    var t := Unwind(s, max).next;
    UnwoundKeepsCells(s, t);
    UnwoundElements(s, t, s.logical - s.rd.pos, UnwindRequest(s, max));
  }

  lemma UnwoundKeepsCells<T>(s: Ring<T>, t: Ring<T>)
    requires Inv(s) && Inv(t) && |t.mem| == |s.mem| && t == s.(mem := t.mem, rd := t.rd) && t.rd.pos == s.rd.pos
    requires t.mem[s.pre..] == s.mem[s.pre..]
    ensures forall a :: s.pre <= a < |s.mem| ==> t.mem[a] == s.mem[a]
    ensures SameCells(s, t, s.logical) && Window(t) == Window(s)
  {
    assert forall a :: s.pre <= a < |s.mem| ==> t.mem[a] == t.mem[s.pre..][a - s.pre] == s.mem[a];
    WindowKept(s, t);
  }

  lemma UnwoundElements<T>(s: Ring<T>, t: Ring<T>, k: nat, request: nat)
    requires Inv(s) && |t.mem| == |s.mem|
    requires k == s.logical - s.rd.pos && k <= s.pre && k < request <= s.data
    requires forall a :: s.pre <= a < |s.mem| ==> t.mem[a] == s.mem[a]
    requires t.mem[s.pre - k..s.pre] == s.mem[s.pre + s.rd.pos..s.pre + s.logical]
    ensures s.pre - k + request <= |s.mem|
    ensures t.mem[s.pre - k..s.pre - k + request] == Contents(s)[..request]
  {
    forall j | 0 <= j < request
      ensures t.mem[s.pre - k + j] == s.mem[Cell(s, j)]
    {
      if j < k {
        assert t.mem[s.pre - k..s.pre][j] == s.mem[s.pre + s.rd.pos..s.pre + s.logical][j];
      }
    }
  }

  /** Committing an unwound read drops exactly the elements that were shown. */
  lemma UnwindThenCommit<T>(s: Ring<T>, max: nat)
    requires Inv(s) && Unwinds(s, max) && UnwindRequest(s, max) <= s.data
    ensures var request := UnwindRequest(s, max);
            var shown := Unwind(s, max).next;
            var done := ReadCommit(shown, request, true);
            && done.status == Success && Inv(done.next)
            && Contents(done.next) == Contents(s)[request..]
            && Staged(done.next) == Staged(s)
  {
    UnwindShowsPrefix(s, max);
    UnwindNext(s, max);
    ReadCommitDrops(Unwind(s, max).next, UnwindRequest(s, max), true);
  }

  // ---------------------------------------------------------------- lending and setting up

  /** A store through a descriptor changes just the staged element it addresses. */
  lemma StoreStages<T>(s: Ring<T>, k: nat, element: T)
    requires Inv(s) && k < s.wr.queuedSize
    ensures var t := Store(s, Cell(s, s.data + k), element);
            && Inv(t) && Window(t) == Window(s)[s.data + k := element]
            && Contents(t) == Contents(s)
  {
    var t := Store(s, Cell(s, s.data + k), element);
    forall i | 0 <= i < |Window(s)| && i != s.data + k
      ensures Cell(s, i) != Cell(s, s.data + k)
    {
      if i < s.data + k {
        CellsAreDistinct(s, i, s.data + k);
      } else {
        CellsAreDistinct(s, s.data + k, i);
      }
    }
    StoredWindow(s, t, s.data + k, element);
  }

  lemma StoredWindow<T>(s: Ring<T>, t: Ring<T>, at: nat, element: T)
    requires Inv(s) && at < |Window(s)|
    requires t == Store(s, Cell(s, at), element)
    requires forall i :: 0 <= i < |Window(s)| && i != at ==> Cell(s, i) != Cell(s, at)
    ensures Inv(t) && Window(t) == Window(s)[at := element]
  {
    forall i | 0 <= i < |Window(s)|
      ensures t.mem[Cell(t, i)] == Window(s)[at := element][i]
    {
    }
  }

  lemma ResetEmpties<T>(s: Ring<T>)
    requires s.pre < |s.mem| && 2 * Size(s) < WORD
    ensures Inv(Reset(s)) && Window(Reset(s)) == [] && Reset(s).logical == Size(s) == FreeSize(Reset(s))
    ensures Reset(s).mem == s.mem && Reset(s).rd.pos == Reset(s).wr.pos == 0
  {
  }

  /** The new amount is never checked, so re-initialising keeps the invariant exactly when the
      position is refused or the amount fits. */
  lemma ReInitializeKeepsInvIff<T>(s: Ring<T>, readPosition: Word, data: Word)
    requires Inv(s)
    ensures Inv(ReInitialize(s, readPosition, data).next) <==> readPosition > Size(s) || data <= Size(s)
  {
    if readPosition <= Size(s) && data <= Size(s) {
      assert (readPosition + data) % WORD == readPosition + data;
      PositionsAfterReInitialize(Size(s), readPosition, data);
    }
  }

  lemma PositionsAfterReInitialize(n: nat, readPosition: nat, data: nat)
    requires 0 < n && readPosition <= n && data <= n
    ensures (readPosition + data) % n % n == Wrap(readPosition % n + data, n)
  {
    var p := readPosition % n;
    if readPosition == n {
      DivUnique(n, n, 1, 0);
    } else {
      ModIsWrap(readPosition, n);
    }
    var w := Wrap(p + data, n);
    DivUnique(readPosition + data, n, (readPosition - p) / n + (if p + data < n then 0 else 1), w);
    ModIsWrap(w, n);
  }

  // ---------------------------------------------------------------- effects on the abstract queue

  /** Dropping k unread elements from the window drops them from the contents only. */
  lemma DroppedParts<T>(s: Ring<T>, t: Ring<T>, k: nat)
    requires Inv(s) && Inv(t) && k <= s.data && t.data == s.data - k
    requires Window(t) == Window(s)[k..]
    ensures Contents(t) == Contents(s)[k..] && Staged(t) == Staged(s)
    ensures Contents(s) == Contents(s)[..k] + Contents(t)
  {
  }

  lemma ReadCommitContents<T>(s: Ring<T>, size: Word, last: bool)
    requires Inv(s) && size <= s.rd.queuedSize
    requires !(Pending(s) && size == s.data)
    ensures var t := ReadCommit(s, size, last).next;
            Inv(t) && Contents(t) == Contents(s)[size..] && Staged(t) == Staged(s)
  {
    ReadCommitDrops(s, size, last);
    ReadCommitAmount(s, size, last);
    DroppedParts(s, ReadCommit(s, size, last).next, size);
  }

  lemma ReadCommitAmount<T>(s: Ring<T>, size: Word, last: bool)
    requires Inv(s) && size <= s.rd.queuedSize
    ensures ReadCommit(s, size, last).next.data == s.data - size
  {
  }

  lemma PopContents<T>(s: Ring<T>)
    requires Inv(s) && Pop(s).status == Success && !(Pending(s) && s.data == 1)
    ensures var o := Pop(s);
            && o.chunk.View? && o.chunk.start == s.pre + s.rd.pos < |s.mem|
            && Inv(o.next)
            && Contents(s) == [s.mem[o.chunk.start]] + Contents(o.next)
            && Staged(o.next) == Staged(s)
  {
    PopDrops(s);
    PopNext(s);
    FirstDropped(s, Pop(s).next, Pop(s).chunk.start);
  }

  lemma FirstDropped<T>(s: Ring<T>, t: Ring<T>, address: nat)
    requires Inv(s) && Inv(t) && 0 < s.data && t.data == s.data - 1 && Window(t) == Window(s)[1..]
    requires address < |s.mem| && s.mem[address] == Contents(s)[0]
    ensures Contents(s) == [s.mem[address]] + Contents(t) && Staged(t) == Staged(s)
  {
    DroppedParts(s, t, 1);
  }

  /** The lent chunk is contiguous and shows the next unread elements that were not yet lent. */
  lemma GetReadableLends<T>(s: Ring<T>, size: nat)
    requires Inv(s)
    ensures var o := GetReadable(s, size);
            && Inv(o.next) && Contents(o.next) == Contents(s) && Staged(o.next) == Staged(s)
            && (o.status == Success ==>
                  && CoversCells(s, o.chunk, s.rd.queuedSize)
                  && o.next.rd.queuedSize == s.rd.queuedSize + o.chunk.size <= s.data
                  && o.next.mem[o.chunk.start..o.chunk.start + o.chunk.size]
                       == Contents(s)[s.rd.queuedSize..s.rd.queuedSize + o.chunk.size])
  {
    GetReadableGrants(s, size);
    var o := GetReadable(s, size);
    WindowKept(s, o.next);
    if o.status == Success {
      LentElements(s, o.chunk, s.rd.queuedSize);
    }
  }

  lemma LentElements<T>(s: Ring<T>, chunk: View, from: nat)
    requires Inv(s) && CoversCells(s, chunk, from) && from + chunk.size <= s.data
    ensures s.mem[chunk.start..chunk.start + chunk.size] == Contents(s)[from..from + chunk.size]
  {
    forall i | from <= i < from + chunk.size
      ensures s.mem[chunk.start + (i - from)] == Contents(s)[i]
    {
    }
  }

  lemma GetWriteableLends<T>(s: Ring<T>, size: nat)
    requires Inv(s)
    requires !(TakesHead(s, size) && s.rd.queuedSize == s.data + s.wr.queuedSize)
    ensures var o := GetWriteable(s, size);
            && Inv(o.next) && Contents(o.next) == Contents(s) && Staged(s) <= Staged(o.next)
            && (o.status == Success ==>
                  && CoversCells(o.next, o.chunk, s.data + s.wr.queuedSize)
                  && |Staged(o.next)| == |Staged(s)| + o.chunk.size
                  && (size != 0 ==> o.chunk.size == size))
  {
    GetWriteableGrants(s, size);
    GetWriteableAmount(s, size);
    ExtendedParts(s, GetWriteable(s, size).next);
  }

  lemma GetWriteableAmount<T>(s: Ring<T>, size: nat)
    requires Inv(s)
    ensures GetWriteable(s, size).next.data == s.data
  {
  }

  lemma ExtendedParts<T>(s: Ring<T>, t: Ring<T>)
    requires Inv(s) && Inv(t) && t.data == s.data && Window(s) <= Window(t)
    ensures Contents(t) == Contents(s) && Staged(s) <= Staged(t)
  {
  }

  /** For requests within the unread data Unwind shows a prefix of the contents as one region. */
  lemma UnwindLends<T>(s: Ring<T>, max: nat)
    requires Inv(s) && max <= DataSize(s)
    ensures var o := Unwind(s, max);
            && Inv(o.next) && Contents(o.next) == Contents(s) && Staged(o.next) == Staged(s)
            && (o.status == Success ==>
                  && o.chunk.View? && o.chunk.start + o.chunk.size <= |s.mem| == |o.next.mem|
                  && o.chunk.size == o.next.rd.queuedSize <= s.data
                  && o.next.mem[o.chunk.start..o.chunk.start + o.chunk.size] == Contents(s)[..o.chunk.size])
            && (o.status != Success ==> o.next == s)
  {
    if Unwinds(s, max) {
      UnwoundLends(s, max);
    } else {
      UnwindPlainly(s, max);
      if Unwind(s, max).status == Success {
        PlainLends(s, Min(UnwindRequest(s, max), MaxReadable(s)), Unwind(s, max));
      }
    }
  }

  lemma PlainLends<T>(s: Ring<T>, size: nat, o: Outcome<T>)
    requires Inv(s) && s.rd.queuedSize == 0 && o == GetReadable(s, size) && o.status == Success
    ensures Inv(o.next) && Contents(o.next) == Contents(s) && Staged(o.next) == Staged(s)
    ensures o.chunk.View? && o.chunk.start + o.chunk.size <= |s.mem| == |o.next.mem|
    ensures o.chunk.size == o.next.rd.queuedSize <= s.data
    ensures o.next.mem[o.chunk.start..o.chunk.start + o.chunk.size] == Contents(s)[..o.chunk.size]
  {
    GetReadableGrants(s, size);
    GetReadableLends(s, size);
    assert Contents(s)[0..o.chunk.size] == Contents(s)[..o.chunk.size];
  }

  lemma UnwoundLends<T>(s: Ring<T>, max: nat)
    requires Inv(s) && max <= DataSize(s) && Unwinds(s, max)
    ensures var o := Unwind(s, max);
            && Inv(o.next) && Contents(o.next) == Contents(s) && Staged(o.next) == Staged(s)
            && o.chunk.View? && o.chunk.start + o.chunk.size <= |s.mem| == |o.next.mem|
            && o.chunk.size == o.next.rd.queuedSize <= s.data
            && o.next.mem[o.chunk.start..o.chunk.start + o.chunk.size] == Contents(s)[..o.chunk.size]
  {
    UnwindShowsPrefix(s, max);
    UnwindNext(s, max);
  }

  lemma UnwindPlainly<T>(s: Ring<T>, max: nat)
    requires Inv(s) && !Unwinds(s, max)
    ensures Unwind(s, max).status == Success ==>
              s.rd.queuedSize == 0
              && Unwind(s, max) == GetReadable(s, Min(UnwindRequest(s, max), MaxReadable(s)))
    ensures Unwind(s, max).status != Success ==> Unwind(s, max).next == s
  {
  }
}
