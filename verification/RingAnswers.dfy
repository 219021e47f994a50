/**
 What every call of a valid ring answers: when it succeeds, with which status it is refused, and which
 cells a granted chunk consists of. The answers speak of amounts, positions and the window only.
 */
module RingAnswers {
  import opened Words
  import opened RingModel
  import opened RingLemmas

  /** A refused call changes nothing and lends nothing. */
  ghost predicate Refused<T>(s: Ring<T>, o: Outcome<T>, status: Status) {
    o.status == status && o.next == s && o.chunk == Detached
  }

  // ---------------------------------------------------------------- reservations and commits

  /** Request 0 stands for all unread elements that lie next to each other behind those already lent. */
  ghost predicate AnswersRead<T>(s: Ring<T>, size: nat, o: Outcome<T>)
    requires Inv(s)
  {
    var lent := s.rd.queuedSize;
    if lent < s.data && lent + size <= s.data && s.rd.queued + size <= s.logical then
      && o.status == Success && o.chunk.View? && 0 < o.chunk.size
      && o.chunk.start == Cell(s, lent) && o.next.rd.queuedSize == lent + o.chunk.size <= s.data
      && if size > 0 then o.chunk.size == size
         else lent + o.chunk.size == s.data || o.chunk.start + o.chunk.size == s.pre + s.logical
    else
      Refused(s, o, OutOfResources)
  }

  lemma ReadAnswered<T>(s: Ring<T>, size: nat)
    requires Inv(s)
    ensures AnswersRead(s, size, GetReadable(s, size))
  {
    GetReadableNext(s, size);
  }

  /** Request 0 stands for all free cells up to the logical end. A run that does not fit there is taken
      from the head of the array, below the read position, and the ring then ends where it would have
      begun. */
  ghost predicate AnswersWrite<T>(s: Ring<T>, size: nat, o: Outcome<T>)
    requires Inv(s)
  {
    var used, end := |Window(s)|, s.wr.queued;
    if size == 0 && used < s.logical then
      && o.status == Success && o.next.logical == s.logical && o.chunk.View? && 0 < o.chunk.size
      && o.chunk.start == s.pre + end && used + o.chunk.size <= s.logical
      && (o.chunk.start + o.chunk.size == s.pre + s.logical || used + o.chunk.size == s.logical)
    else if size > 0 && used + size <= s.logical && end + size <= s.logical then
      o.status == Success && o.next.logical == s.logical && o.chunk == View(s.pre + end, size)
    else if size > 0 && used + size <= s.logical && size <= s.rd.pos then
      o.status == Success && o.next.logical == end && o.chunk == View(s.pre, size)
    else
      Refused(s, o, OutOfResources)
  }

  lemma WriteAnswered<T>(s: Ring<T>, size: nat)
    requires Inv(s)
    ensures AnswersWrite(s, size, GetWriteable(s, size))
  {
    GetWriteableNext(s, size);
  }

  /** Only more than there is unread is refused. A commit within the reservation ends the rest of it if
      it is the last, and brings a hidden tail back exactly when the read position wraps. */
  ghost predicate AnswersReadCommit<T>(s: Ring<T>, size: Word, last: bool, o: Outcome<T>)
    requires s.pre <= |s.mem|
  {
    if size > s.data then Refused(s, o, Underrun)
    else
      && o.status == Success && o.chunk == Detached && o.next.data == s.data - size
      && (size <= s.rd.queuedSize ==>
            && o.next.rd.queuedSize == (if last then 0 else s.rd.queuedSize - size)
            && o.next.logical == if s.rd.pos + size < s.logical then s.logical else Size(s))
  }

  lemma ReadCommitAnswered<T>(s: Ring<T>, size: Word, last: bool)
    requires Inv(s)
    ensures AnswersReadCommit(s, size, last, ReadCommit(s, size, last))
  {
    if size <= s.rd.queuedSize {
      ReadCommitNext(s, size, last);
    }
  }

  /** Refused is what the ring cannot hold, unless the amount overflows the machine word. */
  ghost predicate AnswersWriteCommit<T>(s: Ring<T>, size: Word, last: bool, o: Outcome<T>) {
    if s.logical < s.data + size < WORD then Refused(s, o, Overrun)
    else
      && o.status == Success && o.chunk == Detached && o.next.logical == s.logical
      && (size <= s.wr.queuedSize ==>
            && o.next.data == s.data + size
            && o.next.wr.queuedSize == if last then 0 else s.wr.queuedSize - size)
  }

  lemma WriteCommitAnswered<T>(s: Ring<T>, size: Word, last: bool)
    requires Inv(s)
    ensures AnswersWriteCommit(s, size, last, WriteCommit(s, size, last))
  {
    var amount := size + s.data;
    assert amount % WORD == if amount < WORD then amount else amount - WORD;
    if size <= s.wr.queuedSize {
      WriteCommitNext(s, size, last);
    }
  }

  // ---------------------------------------------------------------- single elements

  /** Elements lent to the reader count as free cells here, and only a reservation for writing is busy. */
  ghost predicate AnswersPush<T>(s: Ring<T>, element: T, o: Outcome<T>) {
    if s.data - s.rd.queuedSize == s.logical then Refused(s, o, OutOfResources)
    else if s.wr.pos != s.wr.queued then Refused(s, o, Busy)
    else
      && o.status == Success && o.chunk == Detached
      && o.next.data == s.data + 1 && o.next.rd == s.rd && o.next.logical == s.logical
      && s.pre + s.wr.pos < |s.mem| && o.next.mem == s.mem[s.pre + s.wr.pos := element]
  }

  lemma PushAnswered<T>(s: Ring<T>, element: T)
    requires Inv(s)
    ensures AnswersPush(s, element, Push(s, element))
  {
  }

  /** A hidden tail comes back exactly when the read position wraps. */
  ghost predicate AnswersPop<T>(s: Ring<T>, o: Outcome<T>)
    requires s.pre <= |s.mem|
  {
    if s.data == s.rd.queuedSize then Refused(s, o, OutOfResources)
    else if s.rd.pos != s.rd.queued then Refused(s, o, Busy)
    else
      && o.status == Success && o.chunk == View(s.pre + s.rd.pos, 1)
      && o.next.data == s.data - 1 && o.next.mem == s.mem && o.next.wr == s.wr
      && o.next.logical == if s.rd.pos + 1 == s.logical then Size(s) else s.logical
  }

  lemma PopAnswered<T>(s: Ring<T>)
    requires Inv(s)
    ensures AnswersPop(s, Pop(s))
  {
    if s.data > s.rd.queuedSize && s.rd.pos == s.rd.queued {
      PopNext(s);
    }
  }

  // ---------------------------------------------------------------- moving positions

  /** From `pos`, the cell at `target` is reached after `passed` cells of a ring of n; coming back to the
      same cell takes a whole lap. A target of n is cell 0. */
  predicate Passes(pos: nat, target: nat, n: nat, passed: nat)
    requires pos < n
  {
    1 <= passed <= n && Wrap(pos + passed, n) == (if target == n then 0 else target)
  }

  /** The number of cells passed is unique, and it is what the code computes. */
  lemma DistancePasses(pos: nat, target: Word, n: nat, passed: nat)
    requires pos < n && target <= n && 2 * n < WORD
    ensures Passes(pos, target, n, passed) <==> passed == Distance(pos, target, n)
  {
    DistanceReaches(pos, target, n);
    if target == n {
      DivUnique(target, n, 1, 0);
    } else {
      DivUnique(target, n, 0, target);
    }
  }

  /** For positions in the ring: busy while the tail is hidden or reads are queued. */
  ghost predicate AnswersMoveRead<T>(s: Ring<T>, target: Word, o: Outcome<T>)
    requires Inv(s)
  {
    if s.logical != Size(s) then Refused(s, o, Busy)
    else if target > s.logical then Refused(s, o, Underrun) || Refused(s, o, InvalidParam)
    else
      exists passed: nat :: Passes(s.rd.pos, target, s.logical, passed) &&
        if passed > s.data then Refused(s, o, Underrun)
        else if s.rd.pos != s.rd.queued then Refused(s, o, Busy)
        else
          && o.status == Success && o.chunk == Detached
          && o.next.data == s.data - passed && o.next.rd.pos == Wrap(s.rd.pos + passed, s.logical)
          && o.next.mem == s.mem && o.next.wr == s.wr && o.next.logical == s.logical
  }

  lemma MoveReadAnswered<T>(s: Ring<T>, target: Word)
    requires Inv(s)
    ensures AnswersMoveRead(s, target, DisplaceRead(s, target))
  {
    if target <= s.logical == Size(s) {
      var passed := Distance(s.rd.pos, target, s.logical);
      DistancePasses(s.rd.pos, target, s.logical, passed);
      DistanceReaches(s.rd.pos, target, s.logical);
      assert Passes(s.rd.pos, target, s.logical, passed);
    }
  }

  ghost predicate AnswersMoveWrite<T>(s: Ring<T>, target: Word, o: Outcome<T>)
    requires Inv(s)
  {
    if s.logical != Size(s) then Refused(s, o, Busy)
    else if target > s.logical then Refused(s, o, Overrun) || Refused(s, o, InvalidParam)
    else
      exists passed: nat :: Passes(s.wr.pos, target, s.logical, passed) &&
        if s.data + passed > s.logical then Refused(s, o, Overrun)
        else if s.wr.pos != s.wr.queued then Refused(s, o, Busy)
        else
          && o.status == Success && o.chunk == Detached
          && o.next.data == s.data + passed && o.next.wr.pos == Wrap(s.wr.pos + passed, s.logical)
          && o.next.mem == s.mem && o.next.rd == s.rd && o.next.logical == s.logical
  }

  lemma MoveWriteAnswered<T>(s: Ring<T>, target: Word)
    requires Inv(s)
    ensures AnswersMoveWrite(s, target, DisplaceWrite(s, target))
  {
    if target <= s.logical == Size(s) {
      var passed := Distance(s.wr.pos, target, s.logical);
      DistancePasses(s.wr.pos, target, s.logical, passed);
      DistanceReaches(s.wr.pos, target, s.logical);
      assert Passes(s.wr.pos, target, s.logical, passed);
    }
  }

  /** Sizes from one to the size of the ring are inserted as they are; 0 counts as a whole lap. */
  ghost predicate AnswersInsert<T>(s: Ring<T>, size: Word, o: Outcome<T>)
    requires Inv(s)
  {
    var added := if size == 0 then s.logical else size;
    if s.logical != Size(s) then Refused(s, o, Busy)
    else if size <= Size(s) then
      if s.data + added > s.logical then Refused(s, o, Overrun)
      else if s.wr.pos != s.wr.queued then Refused(s, o, Busy)
      else o.status == Success && o.next.data == s.data + added && o.next.mem == s.mem && o.next.rd == s.rd
    else
      o.status == Success ==> o.next.data < s.data + size
  }

  lemma InsertAnswered<T>(s: Ring<T>, size: Word)
    requires Inv(s)
    ensures AnswersInsert(s, size, InsertData(s, size))
  {
    if s.logical == Size(s) {
      if size == 0 {
        assert (s.wr.pos + 0) % WORD == s.wr.pos;
        DivUnique(s.wr.pos, s.logical, 0, s.wr.pos);
        DistancePasses(s.wr.pos, s.wr.pos, s.logical, s.logical);
      } else if size <= Size(s) {
        AdvanceDistance(s.wr.pos, size, Size(s));
      }
    }
  }

  // ---------------------------------------------------------------- unwinding

  /** Request 0 stands for all unread elements. What lies up to the logical end is lent in place; when
      more is wanted and the data wrap, the preceding array has to take that part. */
  ghost predicate AnswersUnwind<T>(s: Ring<T>, max: nat, o: Outcome<T>)
    requires s.rd.pos < s.logical
  {
    var wanted, run := if max == 0 then s.data else max, Min(s.data, s.logical - s.rd.pos);
    if s.rd.queuedSize > 0 then Refused(s, o, Busy)
    else if s.data == 0 then Refused(s, o, OutOfResources)
    else if wanted <= run || run == s.data then
      && o.status == Success && o.chunk == View(s.pre + s.rd.pos, Min(wanted, run))
      && o.next.rd.queuedSize == o.chunk.size && o.next.mem == s.mem
    else if s.pre == 0 then Refused(s, o, InvalidRequest)
    else if run > s.pre then Refused(s, o, OutOfResources)
    else
      o.status == Success && o.chunk == View(s.pre - run, wanted) && o.next.rd.queuedSize == wanted
  }

  lemma UnwindAnswered<T>(s: Ring<T>, max: nat)
    requires Inv(s)
    ensures AnswersUnwind(s, max, Unwind(s, max))
  {
    var wanted, run := if max == 0 then s.data else max, Min(s.data, s.logical - s.rd.pos);
    if s.rd.queuedSize == 0 {
      if wanted <= run || run == s.data {
        UnwindInPlace(s, max, wanted, run);
      } else if 0 < run <= s.pre {
        UnwindNext(s, max);
      }
    }
  }

  lemma UnwindInPlace<T>(s: Ring<T>, max: nat, wanted: nat, run: nat)
    requires Inv(s) && s.rd.queuedSize == 0 && run == Min(s.data, s.logical - s.rd.pos)
    requires wanted == (if max == 0 then s.data else max) && (wanted <= run || run == s.data)
    ensures Unwind(s, max) == GetReadable(s, Min(wanted, run))
    ensures AnswersUnwind(s, max, GetReadable(s, Min(wanted, run)))
  {
    GetReadableNext(s, Min(wanted, run));
  }

  // ---------------------------------------------------------------- setting up

  /** A position in the ring is accepted with any amount, and the amount is what the ring then claims to
      hold from there; any other position leaves an empty ring. */
  ghost predicate AnswersReInitialize<T>(s: Ring<T>, readPosition: Word, data: Word, o: Outcome<T>)
    requires s.pre < |s.mem|
  {
    && o.next.mem == s.mem && o.next.pre == s.pre && o.next.logical == Size(s) && o.chunk == Detached
    && o.next.rd.queuedSize == o.next.wr.queuedSize == 0
    && if readPosition <= Size(s) then
         && o.status == Success && o.next.data == data
         && o.next.rd.pos == (if readPosition == Size(s) then 0 else readPosition)
       else
         o.status == Failure && o.next.data == o.next.rd.pos == o.next.wr.pos == 0
  }

  lemma ReInitializeAnswered<T>(s: Ring<T>, readPosition: Word, data: Word)
    requires Inv(s)
    ensures AnswersReInitialize(s, readPosition, data, ReInitialize(s, readPosition, data))
  {
    if readPosition == Size(s) {
      DivUnique(readPosition, Size(s), 1, 0);
    } else if readPosition < Size(s) {
      DivUnique(readPosition, Size(s), 0, readPosition);
    }
  }

  /** The elements are then whatever the cells from that position on hold. */
  lemma ReInitializeClaims<T>(s: Ring<T>, readPosition: Word, data: Word)
    requires Inv(s) && readPosition <= Size(s) && data <= Size(s)
    ensures var t := ReInitialize(s, readPosition, data).next;
            var from := if readPosition == Size(s) then 0 else readPosition;
            && Inv(t) && |Contents(t)| == data && Staged(t) == []
            && forall i :: 0 <= i < data ==> Contents(t)[i] == s.mem[s.pre + Wrap(from + i, Size(s))]
  {
    ReInitializeKeepsInvIff(s, readPosition, data);
    ReInitializeAnswered(s, readPosition, data);
    var t := ReInitialize(s, readPosition, data).next;
    forall i | 0 <= i < data
      ensures Contents(t)[i] == s.mem[s.pre + Wrap(t.rd.pos + i, Size(s))]
    {
      ElementAt(t, i);
    }
  }
}
