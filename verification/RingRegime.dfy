/**
 The calls on a ring and the regime in which they keep its invariant: what a caller has to check
 beforehand because the code does not.
 */
module RingRegime {
  import opened Words
  import opened RingModel
  import opened RingLemmas

  datatype Op<T> =
    | ReadGrant(size: nat)
    | UnwindGrant(max: nat)
    | WriteGrant(size: nat)
    | CommitRead(commit: Word, last: bool)
    | CommitWrite(commit: Word, last: bool)
    | PushOne(element: T)
    | PopOne
    | MoveRead(newPos: Word)
    | MoveWrite(newPos: Word)
    | Insert(amount: Word)
    | StoreAt(place: nat, element: T)

  /** The outcome of a call on the ring alone. */
  function Call<T>(s: Ring<T>, op: Op<T>): Outcome<T>
    requires Inv(s) && !op.StoreAt?
  {
    match op
    case ReadGrant(size) => GetReadable(s, size)
    case UnwindGrant(max) => Unwind(s, max)
    case WriteGrant(size) => GetWriteable(s, size)
    case CommitRead(size, last) => ReadCommit(s, size, last)
    case CommitWrite(size, last) => WriteCommit(s, size, last)
    case PushOne(element) => Push(s, element)
    case PopOne => Pop(s)
    case MoveRead(newPos) => DisplaceRead(s, newPos)
    case MoveWrite(newPos) => DisplaceWrite(s, newPos)
    case Insert(size) => InsertData(s, size)
  }

  // The guards under which the code goes ahead with a call.

  predicate CommitsWrite<T>(s: Ring<T>, size: Word) {
    (size + s.data) % WORD <= s.logical
  }

  predicate Pushes<T>(s: Ring<T>)
    requires Inv(s)
  {
    DataSize(s) != s.logical && s.wr.pos == s.wr.queued
  }

  predicate Pops<T>(s: Ring<T>)
    requires Inv(s)
  {
    DataSize(s) != 0 && s.rd.pos == s.rd.queued
  }

  predicate MovesRead<T>(s: Ring<T>, newPos: Word)
    requires Inv(s)
  {
    && s.logical == Size(s)
    && newPos <= Size(s)
    && s.rd.pos == s.rd.queued
    && Distance(s.rd.pos, newPos, Size(s)) <= s.data
  }

  predicate MovesWrite<T>(s: Ring<T>, newPos: Word)
    requires Inv(s)
  {
    && s.logical == Size(s)
    && newPos <= Size(s)
    && s.wr.pos == s.wr.queued
    && Distance(s.wr.pos, newPos, Size(s)) + s.data <= Size(s)
  }

  /** What a caller has to check before the call; a call the code refuses needs no check. */
  ghost predicate Allowed<T>(s: Ring<T>, op: Op<T>)
    requires Inv(s)
  {
    match op
    case ReadGrant(_) => true
    case UnwindGrant(max) => Unwinds(s, max) ==> UnwindRequest(s, max) <= s.data
    case WriteGrant(size) => TakesHead(s, size) ==> s.rd.queuedSize < s.data + s.wr.queuedSize
    case CommitRead(size, _) => size <= s.data ==> size <= s.rd.queuedSize && !(Pending(s) && size == s.data)
    case CommitWrite(size, _) => CommitsWrite(s, size) ==> size <= s.wr.queuedSize
    case PushOne(_) => Pushes(s) ==> FreeSize(s) > 0
    case PopOne => Pops(s) ==> !(Pending(s) && s.data == 1)
    case MoveRead(newPos) => MovesRead(s, newPos) ==> s.rd.queuedSize == 0
    case MoveWrite(newPos) => MovesWrite(s, newPos) ==> s.wr.queuedSize == 0
    case Insert(size) => MovesWrite(s, InsertTarget(s, size)) ==> s.wr.queuedSize == 0
    case StoreAt(place, _) => place < s.wr.queuedSize
  }

  /** Commits of more than was reserved that change the amount by exactly one lap. */
  ghost predicate WholeLapCommit<T>(s: Ring<T>, op: Op<T>)
    requires Inv(s)
  {
    match op
    case CommitRead(size, last) =>
      s.rd.queuedSize < size == s.logical == s.data && (last || s.rd.queuedSize == 0)
    case CommitWrite(size, last) =>
      && size > s.wr.queuedSize
      && (|| (s.data == 0 && size == s.logical && (last || s.wr.queuedSize == 0))
          || (s.data == s.logical && size == WORD - s.logical && s.rd.queuedSize == 0))
    case _ => false
  }

  /** Whether one call keeps the invariant exactly in the regime. */
  ghost predicate Exact<T>(s: Ring<T>, op: Op<T>)
    requires Inv(s) && !op.StoreAt?
  {
    Inv(Call(s, op).next) <==> Allowed(s, op) || WholeLapCommit(s, op)
  }

  lemma ReadGrantIsExact<T>(s: Ring<T>, size: nat)
    requires Inv(s)
    ensures Exact(s, ReadGrant(size))
  {
    GetReadableGrants(s, size);
  }

  lemma UnwindGrantIsExact<T>(s: Ring<T>, max: nat)
    requires Inv(s)
    ensures Exact(s, UnwindGrant(max))
  {
    UnwindKeepsInvIff(s, max);
  }

  lemma WriteGrantIsExact<T>(s: Ring<T>, size: nat)
    requires Inv(s)
    ensures Exact(s, WriteGrant(size))
  {
    GetWriteableKeepsInvIff(s, size);
  }

  lemma CommitReadIsExact<T>(s: Ring<T>, size: Word, last: bool)
    requires Inv(s)
    ensures Exact(s, CommitRead(size, last))
  {
    if size <= s.data { ReadCommitKeepsInvIff(s, size, last); }
  }

  lemma CommitWriteIsExact<T>(s: Ring<T>, size: Word, last: bool)
    requires Inv(s)
    ensures Exact(s, CommitWrite(size, last))
  {
    if CommitsWrite(s, size) { WriteCommitKeepsInvIff(s, size, last); }
  }

  lemma PushIsExact<T>(s: Ring<T>, element: T)
    requires Inv(s)
    ensures Exact(s, PushOne(element))
  {
    if Pushes(s) { PushKeepsInvIff(s, element); }
  }

  lemma PopIsExact<T>(s: Ring<T>)
    requires Inv(s)
    ensures Exact(s, PopOne)
  {
    if Pops(s) { PopKeepsInvIff(s); }
  }

  lemma MoveReadIsExact<T>(s: Ring<T>, newPos: Word)
    requires Inv(s)
    ensures Exact(s, MoveRead(newPos))
  {
    if MovesRead(s, newPos) { DisplaceReadKeepsInvIff(s, newPos); }
  }

  lemma MoveWriteIsExact<T>(s: Ring<T>, newPos: Word)
    requires Inv(s)
    ensures Exact(s, MoveWrite(newPos))
  {
    if MovesWrite(s, newPos) { DisplaceWriteKeepsInvIff(s, newPos); }
  }

  /** The regime is exact: from any valid ring a call keeps the invariant if and only if it is
      allowed, apart from the over-commits of a whole lap. */
  lemma RegimeIsExact<T>(s: Ring<T>, op: Op<T>)
    requires Inv(s) && !op.StoreAt?
    ensures Inv(Call(s, op).next) <==> Allowed(s, op) || WholeLapCommit(s, op)
  {
    match op
    case ReadGrant(size) => ReadGrantIsExact(s, size);
    case UnwindGrant(max) => UnwindGrantIsExact(s, max);
    case WriteGrant(size) => WriteGrantIsExact(s, size);
    case CommitRead(size, last) => CommitReadIsExact(s, size, last);
    case CommitWrite(size, last) => CommitWriteIsExact(s, size, last);
    case PushOne(element) => PushIsExact(s, element);
    case PopOne => PopIsExact(s);
    case MoveRead(newPos) => MoveReadIsExact(s, newPos);
    case MoveWrite(newPos) => MoveWriteIsExact(s, newPos);
    case Insert(size) => MoveWriteIsExact(s, InsertTarget(s, size));
  }
}
