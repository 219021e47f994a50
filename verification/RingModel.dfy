/**
 Values and transitions of the two-phase ring buffer `CircularBuffer<T>`.

 A writer first reserves a contiguous chunk and later commits it; a reader does the same.
 `logical` is the modulus of the ring: it shrinks when a reservation skips the tail of the array
 and grows back when the read position wraps. The window of a ring is everything it has to keep:
 the unread elements followed by the cells lent to writers, in ring order.
 */
module RingModel {
  import opened Words

  datatype Status =
    | Success | OutOfResources | Busy | InvalidParam | InvalidRequest
    | Overrun | Underrun | Failure

  /** A descriptor of a memory region; `start` is an address in the ring's memory. */
  datatype View = Detached | View(start: nat, size: nat)

  /** A read or write position with the part of the ring reserved ahead of it. */
  datatype Pos = Pos(pos: nat, queued: nat, queuedSize: nat)

  /** The ring proper starts at address `pre`; the cells before it belong to the preceding array. */
  datatype Ring<T> = Ring(mem: seq<T>, pre: nat, data: nat, logical: nat, rd: Pos, wr: Pos)

  datatype Outcome<T> = Outcome(next: Ring<T>, status: Status, chunk: View)

  // ---------------------------------------------------------------- invariant and abstraction

  function Size<T>(s: Ring<T>): nat
    requires s.pre <= |s.mem|
  {
    |s.mem| - s.pre
  }

  /** Bounds without which the unsigned size computations of the code are meaningless. */
  predicate Sane<T>(s: Ring<T>) {
    && s.pre < |s.mem|
    && 0 < s.logical <= Size(s)
    && s.rd.queuedSize <= s.data <= s.logical
    && s.rd.queued <= s.logical
  }

  /** A head chunk has been reserved, nothing was committed since, so the write position is still
      at the shortened end. */
  ghost predicate Pending<T>(s: Ring<T>) {
    && s.wr.pos == s.logical == s.rd.pos + s.data
    && s.wr.queuedSize > 0
    && s.logical < |s.mem| - s.pre
  }

  ghost predicate Inv<T>(s: Ring<T>) {
    && s.pre < |s.mem|
    && 2 * Size(s) < WORD
    && 0 < s.logical <= Size(s)
    && s.rd.queuedSize <= s.data
    && s.data + s.wr.queuedSize <= s.logical
    && s.rd.pos < s.logical
    && s.rd.queued == Wrap(s.rd.pos + s.rd.queuedSize, s.logical)
    && s.wr.queued == Wrap(s.rd.pos + s.data + s.wr.queuedSize, s.logical)
    && (s.wr.pos == Wrap(s.rd.pos + s.data, s.logical) || Pending(s))
  }

  /** Address of the i-th cell of the window. */
  ghost function Cell<T>(s: Ring<T>, i: nat): nat
    requires Inv(s) && i < s.logical
  {
    s.pre + Wrap(s.rd.pos + i, s.logical)
  }

  ghost function Window<T>(s: Ring<T>): (win: seq<T>)
    requires Inv(s)
    ensures |win| == s.data + s.wr.queuedSize
  {
    seq(s.data + s.wr.queuedSize, i requires 0 <= i < s.data + s.wr.queuedSize => s.mem[Cell(s, i)])
  }

  /** The abstract queue: committed elements that were not yet consumed. */
  ghost function Contents<T>(s: Ring<T>): seq<T>
    requires Inv(s)
  {
    Window(s)[..s.data]
  }

  /** What the cells lent to writers currently hold, in ring order. */
  ghost function Staged<T>(s: Ring<T>): seq<T>
    requires Inv(s)
  {
    Window(s)[s.data..]
  }

  /** Different places of the window are different cells, all inside the ring. */
  lemma CellsAreDistinct<T>(s: Ring<T>, i: nat, j: nat)
    requires Inv(s) && i < j < s.logical
    ensures s.pre <= Cell(s, i) < |s.mem| && s.pre <= Cell(s, j) < |s.mem|
    ensures Cell(s, i) != Cell(s, j)
  {
  }

  // ---------------------------------------------------------------- positions

  predicate HasQueued(p: Pos) {
    p.pos != p.queued
  }

  function SetPos(p: Pos, newPos: nat): Pos {
    p.(pos := newPos, queued := newPos)
  }

  function SafeSet(p: Pos, newPos: nat, boundary: nat): (Pos, Status)
    requires boundary > 0
  {
    if newPos > boundary then (p, InvalidParam)
    else if HasQueued(p) then (p, Busy)
    else (SetPos(p, newPos % boundary), Success)
  }

  function IncQueued(p: Pos, inc: nat, boundary: nat): Pos
    requires boundary > 0
  {
    p.(queued := (p.queued + inc) % boundary, queuedSize := p.queuedSize + inc)
  }

  function SetQueued(p: Pos, inc: nat): Pos {
    p.(queued := inc, queuedSize := p.queuedSize + inc)
  }

  /** The boolean tells whether the position wrapped; a commit larger than the reservation changes
      nothing and answers with an error code, which reads as true. */
  function CommitQueued(p: Pos, size: nat, boundary: nat): (Pos, bool)
    requires boundary > 0
  {
    if size > p.queuedSize then (p, true)
    else (p.(pos := (p.pos + size) % boundary, queuedSize := p.queuedSize - size), p.pos + size >= boundary)
  }

  function ResetQueued(p: Pos): Pos {
    p.(queued := p.pos, queuedSize := 0)
  }

  // ---------------------------------------------------------------- sizes

  function DataSize<T>(s: Ring<T>): nat
    requires Sane(s)
  {
    s.data - s.rd.queuedSize
  }

  function FreeSize<T>(s: Ring<T>): nat
    requires Inv(s)
  {
    s.logical - (s.data + s.wr.queuedSize)
  }

  function MaxReadable<T>(s: Ring<T>): nat
    requires Sane(s)
  {
    Min(s.logical - s.rd.queued, DataSize(s))
  }

  function MaxWriteable<T>(s: Ring<T>): nat
    requires Inv(s)
  {
    Min(s.logical - s.wr.queued, FreeSize(s))
  }

  // ---------------------------------------------------------------- transitions

  function Refuse<T>(s: Ring<T>, status: Status): Outcome<T> {
    Outcome(s, status, Detached)
  }

  function GetReadable<T>(s: Ring<T>, size: nat): Outcome<T>
    requires Sane(s)
  {
    var max := MaxReadable(s);
    var k := if size == 0 then max else size;
    if k == 0 || k > max then Refuse(s, OutOfResources)
    else Outcome(s.(rd := IncQueued(s.rd, k, s.logical)), Success, View(s.pre + s.rd.queued, k))
  }

  /** The size a reservation asks for: 0 stands for everything up to the logical end. */
  function Requested<T>(s: Ring<T>, size: nat): nat
    requires Inv(s)
  {
    if size == 0 then MaxWriteable(s) else size
  }

  /** The tail is skipped and the chunk is taken from the head of the array. */
  predicate TakesHead<T>(s: Ring<T>, size: nat)
    requires Inv(s)
  {
    var k := Requested(s, size);
    k <= FreeSize(s) && s.wr.queued + k > s.logical && k <= s.rd.pos
  }

  function GetWriteable<T>(s: Ring<T>, size: nat): Outcome<T>
    requires Inv(s)
  {
    var k := Requested(s, size);
    if k == 0 || FreeSize(s) < k then Refuse(s, OutOfResources)
    else if s.wr.queued + k <= s.logical then
      Outcome(s.(wr := IncQueued(s.wr, k, s.logical)), Success, View(s.pre + s.wr.queued, k))
    else if k <= s.rd.pos then
      Outcome(s.(logical := s.wr.queued, wr := SetQueued(s.wr, k)), Success, View(s.pre, k))
    else Refuse(s, OutOfResources)
  }

  function WriteCommit<T>(s: Ring<T>, size: Word, last: bool): Outcome<T>
    requires 0 < s.logical
  {
    if (size + s.data) % WORD > s.logical then Refuse(s, Overrun)
    else
      var (wr, _) := CommitQueued(s.wr, size, s.logical);
      Outcome(s.(data := (s.data + size) % WORD, wr := if last then ResetQueued(wr) else wr), Success, Detached)
  }

  function ReadCommit<T>(s: Ring<T>, size: Word, last: bool): Outcome<T>
    requires 0 < s.logical && s.pre <= |s.mem|
  {
    if size > s.data then Refuse(s, Underrun)
    else
      var (rd, wrapped) := CommitQueued(s.rd, size, s.logical);
      Outcome(s.(data := s.data - size,
                 logical := if wrapped && s.logical < Size(s) then Size(s) else s.logical,
                 rd := if last then ResetQueued(rd) else rd),
              Success, Detached)
  }

  function Push<T>(s: Ring<T>, element: T): Outcome<T>
    requires Sane(s) && s.wr.pos < Size(s)
  {
    if s.logical == DataSize(s) then Refuse(s, OutOfResources)
    else if HasQueued(s.wr) then Refuse(s, Busy)
    else
      Outcome(s.(mem := s.mem[s.pre + s.wr.pos := element],
                 data := s.data + 1,
                 wr := SetPos(s.wr, (s.wr.pos + 1) % s.logical)),
              Success, Detached)
  }

  /** On success the chunk names the cell the element was taken from. */
  function Pop<T>(s: Ring<T>): Outcome<T>
    requires Sane(s)
  {
    if DataSize(s) == 0 then Refuse(s, OutOfResources)
    else if HasQueued(s.rd) then Refuse(s, Busy)
    else
      var newPos := (s.rd.pos + 1) % s.logical;
      Outcome(s.(data := s.data - 1,
                 logical := if newPos == 0 && s.logical < Size(s) then Size(s) else s.logical,
                 rd := SetPos(s.rd, newPos)),
              Success, View(s.pre + s.rd.pos, 1))
  }

  function DisplaceRead<T>(s: Ring<T>, newPos: Word): Outcome<T>
    requires Inv(s)
  {
    if s.logical != Size(s) then Refuse(s, Busy)
    else
      var consumed := Distance(s.rd.pos, newPos, Size(s));
      var (rd, status) := SafeSet(s.rd, newPos, Size(s));
      if consumed > s.data then Refuse(s, Underrun)
      else if status != Success then Refuse(s, status)
      else Outcome(s.(data := s.data - consumed, rd := rd), Success, Detached)
  }

  function DisplaceWrite<T>(s: Ring<T>, newPos: Word): Outcome<T>
    requires Inv(s)
  {
    if s.logical != Size(s) then Refuse(s, Busy)
    else
      var incoming := Distance(s.wr.pos, newPos, Size(s));
      var (wr, status) := SafeSet(s.wr, newPos, Size(s));
      if incoming + s.data > Size(s) then Refuse(s, Overrun)
      else if status != Success then Refuse(s, status)
      else Outcome(s.(data := s.data + incoming, wr := wr), Success, Detached)
  }

  /** Position handed to DisplaceWrite by InsertData. */
  function InsertTarget<T>(s: Ring<T>, size: Word): Word
    requires Inv(s)
  {
    (s.wr.pos + size) % WORD % Size(s)
  }

  function InsertData<T>(s: Ring<T>, size: Word): Outcome<T>
    requires Inv(s)
  {
    DisplaceWrite(s, InsertTarget(s, size))
  }

  predicate Wraps<T>(s: Ring<T>)
    requires Inv(s)
  {
    s.rd.pos + DataSize(s) > s.logical
  }

  function UnwindRequest<T>(s: Ring<T>, max: nat): nat
    requires Inv(s)
  {
    if max == 0 then DataSize(s) else max
  }

  function Unwind<T>(s: Ring<T>, max: nat): Outcome<T>
    requires Inv(s)
  {
    var request := UnwindRequest(s, max);
    var copy := MaxReadable(s);
    if s.rd.queuedSize != 0 then Refuse(s, Busy)
    else if !Wraps(s) || request <= copy then GetReadable(s, Min(request, copy))
    else if s.pre == 0 then Refuse(s, InvalidRequest)
    else if copy > s.pre then Refuse(s, OutOfResources)
    else
      var first := s.pre + s.rd.pos;
      Outcome(s.(mem := s.mem[..s.pre - copy] + s.mem[first..first + copy] + s.mem[s.pre..],
                 rd := IncQueued(s.rd, request, s.logical)),
              Success, View(s.pre - copy, request))
  }

  /** The holder of a reservation stores through the descriptor it was given. */
  function Store<T>(s: Ring<T>, address: nat, element: T): Ring<T>
    requires address < |s.mem|
  {
    s.(mem := s.mem[address := element])
  }

  function Reset<T>(s: Ring<T>): Ring<T>
    requires s.pre <= |s.mem|
  {
    s.(data := 0, logical := Size(s), rd := Pos(0, 0, 0), wr := Pos(0, 0, 0))
  }

  /** The check at the top looks at the amount stored before the call, not at the new amount. */
  function ReInitialize<T>(s: Ring<T>, readPosition: Word, data: Word): Outcome<T>
    requires Inv(s)
  {
    if s.data > Size(s) then Refuse(s, InvalidParam)
    else
      var cleared := Reset(s);
      var (rd, readStatus) := SafeSet(cleared.rd, readPosition, Size(s));
      if readStatus != Success then Refuse(cleared, Failure)
      else
        var (wr, writeStatus) := SafeSet(cleared.wr, (readPosition + data) % WORD % Size(s), Size(s));
        if writeStatus != Success then Refuse(cleared.(rd := rd), Failure)
        else Outcome(cleared.(rd := rd, wr := wr, data := data), Success, Detached)
  }
}
