/**
 Whole runs of the ring: any interleaving of reservations, stores through the granted descriptors,
 commits and single-element calls. A world remembers what was handed out, what the writers stored,
 what was committed and what was consumed.
 */
module RingRuns {
  import opened Words
  import opened RingModel
  import opened RingLemmas
  import opened RingRegime

  /** `writing` and `reading` are the addresses lent out and not yet committed, in the order of the
      grants. `staged` is what the writers left in their cells: a grant starts it with what the cells
      hold, from then on only the writers' own stores change it. `sent` and `got` are the elements
      committed, as staged, and consumed, as seen through `reading`. */
  datatype World<T> = World(
    ring: Ring<T>, sent: seq<T>, got: seq<T>, writing: seq<nat>, staged: seq<T>, reading: seq<nat>)

  function Addresses(chunk: View): seq<nat>
    requires chunk.View?
  {
    seq(chunk.size, j requires 0 <= j < chunk.size => chunk.start + j)
  }

  function Load<T>(mem: seq<T>, addresses: seq<nat>): (values: seq<T>)
    requires forall j :: 0 <= j < |addresses| ==> addresses[j] < |mem|
    ensures |values| == |addresses|
  {
    seq(|addresses|, j requires 0 <= j < |addresses| => mem[addresses[j]])
  }

  function CellAhead<T>(s: Ring<T>, from: nat, i: nat): (address: nat)
    requires s.pre < |s.mem|
    ensures address < |s.mem|
  {
    s.pre + (from + i) % Size(s)
  }

  /** The addresses a position passes when it moves `count` cells round the whole array. */
  function Passed<T>(s: Ring<T>, from: nat, count: nat): (addresses: seq<nat>)
    requires s.pre < |s.mem|
  {
    seq(count, i requires 0 <= i < count => CellAhead(s, from, i))
  }

  // ---------------------------------------------------------------- the run invariant

  ghost predicate LentForWriting<T>(s: Ring<T>, writing: seq<nat>)
    requires Inv(s)
  {
    && |writing| == s.wr.queuedSize
    && forall j :: 0 <= j < |writing| ==> writing[j] == Cell(s, s.data + j)
  }

  /** Cells lent to a reader are the oldest ones, or unwound copies of them below the ring. */
  ghost predicate LentForReading<T>(s: Ring<T>, reading: seq<nat>)
    requires Inv(s)
  {
    && |reading| == s.rd.queuedSize
    && forall j :: 0 <= j < |reading| ==>
         && reading[j] < |s.mem|
         && (reading[j] == Cell(s, j) || reading[j] < s.pre)
         && s.mem[reading[j]] == s.mem[Cell(s, j)]
  }

  ghost predicate Valid<T>(w: World<T>) {
    && Inv(w.ring)
    && LentForWriting(w.ring, w.writing)
    && LentForReading(w.ring, w.reading)
    && Staged(w.ring) == w.staged
    && w.sent == w.got + Contents(w.ring)
  }

  function Step<T>(w: World<T>, op: Op<T>): World<T>
    requires Valid(w) && Allowed(w.ring, op)
  {
    var s := w.ring;
    if op.StoreAt? then
      w.(ring := Store(s, w.writing[op.place], op.element), staged := w.staged[op.place := op.element])
    else
      var o := Call(s, op);
      if o.status != Success then w
      else
        var t := o.next;
        match op
        case ReadGrant(_) => w.(ring := t, reading := w.reading + Addresses(o.chunk))
        case UnwindGrant(_) => w.(ring := t, reading := w.reading + Addresses(o.chunk))
        case WriteGrant(_) =>
          w.(ring := t, writing := w.writing + Addresses(o.chunk),
             staged := w.staged + Load(s.mem, Addresses(o.chunk)))
        case CommitRead(size, last) =>
          w.(ring := t, got := w.got + Load(s.mem, w.reading[..size]),
             reading := if last then [] else w.reading[size..])
        case CommitWrite(size, last) =>
          w.(ring := t, sent := w.sent + w.staged[..size],
             writing := if last then [] else w.writing[size..],
             staged := if last then [] else w.staged[size..])
        case PushOne(element) => w.(ring := t, sent := w.sent + [element])
        case PopOne => w.(ring := t, got := w.got + Load(s.mem, [o.chunk.start]))
        case MoveRead(newPos) =>
          w.(ring := t, got := w.got + Load(s.mem, Passed(s, s.rd.pos, Distance(s.rd.pos, newPos, Size(s)))))
        case MoveWrite(newPos) =>
          w.(ring := t, sent := w.sent + Load(s.mem, Passed(s, s.wr.pos, Distance(s.wr.pos, newPos, Size(s)))))
        case Insert(size) =>
          var newPos := InsertTarget(s, size);
          w.(ring := t, sent := w.sent + Load(s.mem, Passed(s, s.wr.pos, Distance(s.wr.pos, newPos, Size(s)))))
  }

  // ---------------------------------------------------------------- every step keeps the invariant

  lemma ReadGrantKeepsValid<T>(w: World<T>, size: nat)
    requires Valid(w) && GetReadable(w.ring, size).status == Success
    ensures var o := GetReadable(w.ring, size);
            Inv(o.next) && o.chunk.View?
            && Valid(w.(ring := o.next, reading := w.reading + Addresses(o.chunk)))
  {
    var o := GetReadable(w.ring, size);
    GetReadableGrants(w.ring, size);
    GetReadableLends(w.ring, size);
    GrantedReading(w.ring, o.next, o.chunk, w.reading);
    WritersUndisturbed(w.ring, o.next, w.writing);
  }

  lemma GrantedReading<T>(s: Ring<T>, t: Ring<T>, chunk: View, reading: seq<nat>)
    requires Inv(s) && Inv(t) && LentForReading(s, reading) && t == s.(rd := t.rd)
    requires SameCells(s, t, s.logical) && CoversCells(s, chunk, s.rd.queuedSize)
    requires t.rd.queuedSize == s.rd.queuedSize + chunk.size <= s.data
    ensures LentForReading(t, reading + Addresses(chunk))
  {
  }

  lemma WritersUndisturbed<T>(s: Ring<T>, t: Ring<T>, writing: seq<nat>)
    requires Inv(s) && Inv(t) && LentForWriting(s, writing)
    requires SameCells(s, t, s.logical) && t.data == s.data && t.wr.queuedSize == s.wr.queuedSize
    ensures LentForWriting(t, writing)
  {
  }

  lemma UnwindGrantKeepsValid<T>(w: World<T>, max: nat)
    requires Valid(w) && Unwinds(w.ring, max) && UnwindRequest(w.ring, max) <= w.ring.data
    ensures var o := Unwind(w.ring, max);
            Inv(o.next) && o.chunk.View?
            && Valid(w.(ring := o.next, reading := w.reading + Addresses(o.chunk)))
  {
    var s, o := w.ring, Unwind(w.ring, max);
    UnwindShowsPrefix(s, max);
    UnwindNext(s, max);
    UnwoundIsLent(s, o.next, o.chunk);
    WritersUndisturbed(s, o.next, w.writing);
    SameParts(s, o.next);
  }

  lemma SameParts<T>(s: Ring<T>, t: Ring<T>)
    requires Inv(s) && Inv(t) && Window(s) == Window(t) && s.data == t.data
    ensures Contents(t) == Contents(s) && Staged(t) == Staged(s)
  {
  }

  lemma UnwoundIsLent<T>(s: Ring<T>, t: Ring<T>, chunk: View)
    requires Inv(s) && Inv(t) && s.pre == t.pre && |s.mem| == |t.mem|
    requires t.rd.pos == s.rd.pos && t.logical == s.logical && t.data == s.data
    requires SameCells(s, t, s.logical)
    requires chunk.View? && chunk.size == t.rd.queuedSize
    requires chunk.start + (s.logical - s.rd.pos) == s.pre && s.logical - s.rd.pos < chunk.size
    requires chunk.start + chunk.size <= |t.mem|
    requires t.mem[chunk.start..chunk.start + chunk.size] == Contents(s)[..chunk.size]
    ensures LentForReading(t, Addresses(chunk))
  {
    forall j | 0 <= j < chunk.size
      ensures t.mem[chunk.start + j] == s.mem[Cell(s, j)]
    {
      assert t.mem[chunk.start + j] == t.mem[chunk.start..chunk.start + chunk.size][j];
    }
  }

  lemma WriteGrantKeepsValid<T>(w: World<T>, size: nat)
    requires Valid(w) && GetWriteable(w.ring, size).status == Success
    requires Allowed(w.ring, WriteGrant(size))
    ensures var o := GetWriteable(w.ring, size);
            Inv(o.next) && o.chunk.View?
            && (forall j :: 0 <= j < o.chunk.size ==> Addresses(o.chunk)[j] < |w.ring.mem|)
            && Valid(w.(ring := o.next, writing := w.writing + Addresses(o.chunk),
                        staged := w.staged + Load(w.ring.mem, Addresses(o.chunk))))
  {
    var s, o := w.ring, GetWriteable(w.ring, size);
    GetWriteableGrants(s, size);
    GetWriteableFrame(s, size);
    GrantedLoans(s, o.next, o.chunk, w.writing);
    GrantedStaging(s, o.next, o.chunk);
    ReadersUndisturbed(s, o.next, w.reading);
  }

  /** A grant adds what its cells hold to the staged elements. */
  lemma GrantedStaging<T>(s: Ring<T>, t: Ring<T>, chunk: View)
    requires Inv(s) && Inv(t) && t.mem == s.mem && t.data == s.data
    requires Window(s) <= Window(t) && CoversCells(t, chunk, |Window(s)|)
    requires |Window(t)| == |Window(s)| + chunk.size
    ensures forall j :: 0 <= j < chunk.size ==> Addresses(chunk)[j] < |s.mem|
    ensures Contents(t) == Contents(s) && Staged(t) == Staged(s) + Load(s.mem, Addresses(chunk))
  {
    LoadedChunk(t, chunk, |Window(s)|);
    assert Window(t)[..|Window(s)|] == Window(s);
  }

  lemma LoadedChunk<T>(t: Ring<T>, chunk: View, at: nat)
    requires Inv(t) && CoversCells(t, chunk, at) && |Window(t)| == at + chunk.size
    ensures forall j :: 0 <= j < chunk.size ==> Addresses(chunk)[j] < |t.mem|
    ensures Load(t.mem, Addresses(chunk)) == Window(t)[at..]
  {
    forall j | 0 <= j < chunk.size
      ensures Window(t)[at + j] == t.mem[Addresses(chunk)[j]]
    {
      assert Cell(t, at + j) == chunk.start + j;
    }
  }

  lemma GetWriteableFrame<T>(s: Ring<T>, size: nat)
    requires Inv(s) && GetWriteable(s, size).status == Success
    ensures var o := GetWriteable(s, size);
            && o.chunk.View?
            && o.next == s.(logical := o.next.logical, wr := o.next.wr)
            && o.next.wr.queuedSize == s.wr.queuedSize + o.chunk.size
  {
    GetWriteableNext(s, size);
  }

  lemma GrantedLoans<T>(s: Ring<T>, t: Ring<T>, chunk: View, writing: seq<nat>)
    requires Inv(s) && Inv(t) && LentForWriting(s, writing)
    requires SameCells(s, t, |Window(s)|) && CoversCells(t, chunk, |Window(s)|)
    requires t.data == s.data && t.wr.queuedSize == s.wr.queuedSize + chunk.size
    ensures LentForWriting(t, writing + Addresses(chunk))
  {
  }

  lemma ReadersUndisturbed<T>(s: Ring<T>, t: Ring<T>, reading: seq<nat>)
    requires Inv(s) && Inv(t) && LentForReading(s, reading)
    requires SameCells(s, t, s.data) && t.mem == s.mem && t.pre == s.pre && t.rd == s.rd
    ensures LentForReading(t, reading)
  {
  }

  lemma CommitReadKeepsValid<T>(w: World<T>, size: Word, last: bool)
    requires Valid(w) && size <= w.ring.rd.queuedSize && !(Pending(w.ring) && size == w.ring.data)
    ensures var o := ReadCommit(w.ring, size, last);
            Inv(o.next)
            && Valid(w.(ring := o.next, got := w.got + Load(w.ring.mem, w.reading[..size]),
                        reading := if last then [] else w.reading[size..]))
  {
    ReadCommitDrops(w.ring, size, last);
    ReadCommitFrame(w.ring, size, last);
    AfterCommitRead(w, ReadCommit(w.ring, size, last).next, size, last);
  }

  lemma AfterCommitRead<T>(w: World<T>, t: Ring<T>, size: nat, last: bool)
    requires Valid(w) && Inv(t) && size <= |w.reading|
    requires t == w.ring.(data := w.ring.data - size, logical := t.logical, rd := t.rd)
    requires t.rd.queuedSize == if last then 0 else w.ring.rd.queuedSize - size
    requires Window(t) == Window(w.ring)[size..]
    requires forall i :: 0 <= i < |Window(w.ring)| - size ==> Cell(t, i) == Cell(w.ring, size + i)
    ensures Valid(w.(ring := t, got := w.got + Load(w.ring.mem, w.reading[..size]),
                     reading := if last then [] else w.reading[size..]))
  {
    LoadedPrefix(w.ring, w.reading, size);
    DroppedParts(w.ring, t, size);
    DroppedLoans(w.ring, t, size, w.writing, w.reading);
  }

  lemma ReadCommitFrame<T>(s: Ring<T>, size: Word, last: bool)
    requires Inv(s) && size <= s.rd.queuedSize
    ensures var t := ReadCommit(s, size, last).next;
            && t == s.(data := s.data - size, logical := t.logical, rd := t.rd)
            && t.rd.queuedSize == (if last then 0 else s.rd.queuedSize - size)
  {
  }

  lemma LoadedPrefix<T>(s: Ring<T>, reading: seq<nat>, size: nat)
    requires Inv(s) && LentForReading(s, reading) && size <= |reading|
    ensures Load(s.mem, reading[..size]) == Contents(s)[..size]
  {
  }

  lemma DroppedLoans<T>(s: Ring<T>, t: Ring<T>, k: nat, writing: seq<nat>, reading: seq<nat>)
    requires Inv(s) && Inv(t) && LentForWriting(s, writing) && LentForReading(s, reading)
    requires t.mem == s.mem && t.pre == s.pre && t.wr.queuedSize == s.wr.queuedSize && t.data == s.data - k
    requires forall i :: 0 <= i < |Window(s)| - k ==> Cell(t, i) == Cell(s, k + i)
    ensures LentForWriting(t, writing)
    ensures k <= |reading| && t.rd.queuedSize == |reading| - k ==> LentForReading(t, reading[k..])
  {
    forall j | 0 <= j < |writing|
      ensures writing[j] == Cell(t, t.data + j)
    {
      assert Cell(t, s.data - k + j) == Cell(s, k + (s.data - k + j));
    }
  }

  lemma CommitWriteKeepsValid<T>(w: World<T>, size: Word, last: bool)
    requires Valid(w) && size <= w.ring.wr.queuedSize
    ensures var o := WriteCommit(w.ring, size, last);
            Inv(o.next)
            && Valid(w.(ring := o.next, sent := w.sent + w.staged[..size],
                        writing := if last then [] else w.writing[size..],
                        staged := if last then [] else w.staged[size..]))
  {
    WriteCommitAppends(w.ring, size, last);
    WriteCommitFrame(w.ring, size, last);
    AfterCommitWrite(w, WriteCommit(w.ring, size, last).next, size, last);
  }

  lemma WriteCommitFrame<T>(s: Ring<T>, size: Word, last: bool)
    requires Inv(s) && size <= s.wr.queuedSize
    ensures var t := WriteCommit(s, size, last).next;
            && t == s.(data := s.data + size, wr := t.wr)
            && t.wr.queuedSize == (if last then 0 else s.wr.queuedSize - size)
  {
    WriteCommitNext(s, size, last);
  }

  lemma AfterCommitWrite<T>(w: World<T>, t: Ring<T>, size: nat, last: bool)
    requires Valid(w) && Inv(t) && size <= |w.writing|
    requires t == w.ring.(data := w.ring.data + size, wr := t.wr)
    requires t.wr.queuedSize == if last then 0 else w.ring.wr.queuedSize - size
    requires SameCells(w.ring, t, w.ring.logical)
    requires Window(t) == if last then Window(w.ring)[..w.ring.data + size] else Window(w.ring)
    requires Contents(t) == Contents(w.ring) + Staged(w.ring)[..size]
    ensures Valid(w.(ring := t, sent := w.sent + w.staged[..size],
                     writing := if last then [] else w.writing[size..],
                     staged := if last then [] else w.staged[size..]))
  {
    CommittedLoans(w.ring, t, size, w.writing);
    CommittedReaders(w.ring, t, w.reading);
    CommittedStaging(w.ring, t, size, last);
    Regrouped(w.got, Contents(w.ring), w.staged[..size]);
  }

  lemma CommittedStaging<T>(s: Ring<T>, t: Ring<T>, size: nat, last: bool)
    requires Inv(s) && Inv(t) && size <= s.wr.queuedSize && t.data == s.data + size
    requires t.wr.queuedSize == if last then 0 else s.wr.queuedSize - size
    requires Window(t) == if last then Window(s)[..s.data + size] else Window(s)
    ensures Staged(t) == if last then [] else Staged(s)[size..]
  {
  }

  lemma CommittedReaders<T>(s: Ring<T>, t: Ring<T>, reading: seq<nat>)
    requires Inv(s) && Inv(t) && LentForReading(s, reading) && t.mem == s.mem && t.pre == s.pre && t.rd == s.rd
    requires SameCells(s, t, s.logical)
    ensures LentForReading(t, reading)
  {
    ReadersUndisturbed(s, t, reading);
  }

  lemma Regrouped<T>(a: seq<T>, b: seq<T>, c: seq<T>)
    ensures (a + b) + c == a + (b + c)
  {
  }

  lemma LoadedStaged<T>(s: Ring<T>, writing: seq<nat>)
    requires Inv(s) && LentForWriting(s, writing)
    ensures forall j :: 0 <= j < |writing| ==> writing[j] < |s.mem|
    ensures Load(s.mem, writing) == Staged(s)
  {
  }

  lemma CommittedLoans<T>(s: Ring<T>, t: Ring<T>, size: nat, writing: seq<nat>)
    requires Inv(s) && Inv(t) && LentForWriting(s, writing) && size <= |writing|
    requires SameCells(s, t, s.logical) && t.data == s.data + size
    ensures t.wr.queuedSize == 0 ==> LentForWriting(t, [])
    ensures t.wr.queuedSize == |writing| - size ==> LentForWriting(t, writing[size..])
  {
  }

  lemma PushOneKeepsValid<T>(w: World<T>, element: T)
    requires Valid(w) && Push(w.ring, element).status == Success && FreeSize(w.ring) > 0
    ensures var o := Push(w.ring, element);
            Inv(o.next) && Valid(w.(ring := o.next, sent := w.sent + [element]))
  {
    var s, t := w.ring, Push(w.ring, element).next;
    PushAppends(s, element);
    PushNext(s, element);
    assert Cell(s, s.data) == s.pre + s.wr.pos;
    forall j | 0 <= j < |w.reading|
      ensures t.mem[w.reading[j]] == s.mem[w.reading[j]]
    {
      CellsAreDistinct(s, j, s.data);
    }
    assert LentForReading(t, w.reading);
  }

  lemma PopOneKeepsValid<T>(w: World<T>)
    requires Valid(w) && Pop(w.ring).status == Success && !(Pending(w.ring) && w.ring.data == 1)
    ensures var o := Pop(w.ring);
            Inv(o.next) && o.chunk.View? && o.chunk.start < |w.ring.mem|
            && Valid(w.(ring := o.next, got := w.got + Load(w.ring.mem, [o.chunk.start])))
  {
    PopDrops(w.ring);
    PopNext(w.ring);
    AfterPop(w, Pop(w.ring).next, Pop(w.ring).chunk.start);
  }

  lemma AfterPop<T>(w: World<T>, t: Ring<T>, address: nat)
    requires Valid(w) && Inv(t) && w.ring.rd.queuedSize == t.rd.queuedSize == 0 < w.ring.data
    requires t == w.ring.(data := w.ring.data - 1, logical := t.logical, rd := t.rd)
    requires address < |w.ring.mem| && w.ring.mem[address] == Contents(w.ring)[0]
    requires Window(t) == Window(w.ring)[1..]
    requires forall i :: 0 <= i < |Window(w.ring)| - 1 ==> Cell(t, i) == Cell(w.ring, 1 + i)
    ensures Valid(w.(ring := t, got := w.got + Load(w.ring.mem, [address])))
  {
    DroppedParts(w.ring, t, 1);
    assert Load(w.ring.mem, [address]) == Contents(w.ring)[..1];
    Regrouped(w.got, Load(w.ring.mem, [address]), Contents(t));
    DroppedLoans(w.ring, t, 1, w.writing, w.reading);
  }

  /** Cells ahead of a position, reduced by the size of the array, are window cells. */
  lemma PassedAreCells<T>(s: Ring<T>, place: nat, from: nat, count: nat)
    requires Inv(s) && s.logical == Size(s) && place + count <= s.logical
    requires from == Wrap(s.rd.pos + place, s.logical)
    ensures forall i :: 0 <= i < count ==> Passed(s, from, count)[i] == Cell(s, place + i)
  {
    forall i | 0 <= i < count
      ensures Passed(s, from, count)[i] == Cell(s, place + i)
    {
      ModIsWrap(from + i, s.logical);
    }
  }

  lemma LoadedCells<T>(s: Ring<T>, place: nat, addresses: seq<nat>)
    requires Inv(s) && place + |addresses| <= s.logical
    requires forall i :: 0 <= i < |addresses| ==> addresses[i] == Cell(s, place + i)
    ensures forall i :: 0 <= i < |addresses| ==> addresses[i] < |s.mem|
    ensures Load(s.mem, addresses)
         == seq(|addresses|, i requires 0 <= i < |addresses| => s.mem[Cell(s, place + i)])
  {
  }

  lemma LoadedFront<T>(s: Ring<T>, addresses: seq<nat>)
    requires Inv(s) && |addresses| <= s.data
    requires forall i :: 0 <= i < |addresses| ==> addresses[i] == Cell(s, i)
    ensures forall i :: 0 <= i < |addresses| ==> addresses[i] < |s.mem|
    ensures Load(s.mem, addresses) == Contents(s)[..|addresses|]
  {
  }

  lemma MoveReadKeepsValid<T>(w: World<T>, newPos: Word)
    requires Valid(w) && DisplaceRead(w.ring, newPos).status == Success && w.ring.rd.queuedSize == 0
    ensures var o := DisplaceRead(w.ring, newPos);
            var d := Distance(w.ring.rd.pos, newPos, Size(w.ring));
            Inv(o.next)
            && Valid(w.(ring := o.next, got := w.got + Load(w.ring.mem, Passed(w.ring, w.ring.rd.pos, d))))
  {
    var s := w.ring;
    var passed := Passed(s, s.rd.pos, Distance(s.rd.pos, newPos, Size(s)));
    DisplaceReadDrops(s, newPos);
    DisplaceReadNext(s, newPos);
    PassedAreCells(s, 0, s.rd.pos, |passed|);
    AfterMoveRead(w, DisplaceRead(s, newPos).next, passed);
  }

  lemma AfterMoveRead<T>(w: World<T>, t: Ring<T>, passed: seq<nat>)
    requires Valid(w) && Inv(t) && w.ring.rd.queuedSize == t.rd.queuedSize == 0
    requires |passed| <= w.ring.data && t == w.ring.(data := w.ring.data - |passed|, logical := t.logical, rd := t.rd)
    requires forall i :: 0 <= i < |passed| ==> passed[i] == Cell(w.ring, i)
    requires forall i :: 0 <= i < |Window(w.ring)| - |passed| ==> Cell(t, i) == Cell(w.ring, |passed| + i)
    requires Window(t) == Window(w.ring)[|passed|..]
    ensures forall i :: 0 <= i < |passed| ==> passed[i] < |w.ring.mem|
    ensures Valid(w.(ring := t, got := w.got + Load(w.ring.mem, passed)))
  {
    LoadedFront(w.ring, passed);
    DroppedParts(w.ring, t, |passed|);
    Regrouped(w.got, Load(w.ring.mem, passed), Contents(t));
    DroppedLoans(w.ring, t, |passed|, w.writing, w.reading);
  }

  lemma MoveWriteKeepsValid<T>(w: World<T>, newPos: Word)
    requires Valid(w) && DisplaceWrite(w.ring, newPos).status == Success && w.ring.wr.queuedSize == 0
    ensures var o := DisplaceWrite(w.ring, newPos);
            var d := Distance(w.ring.wr.pos, newPos, Size(w.ring));
            Inv(o.next)
            && Valid(w.(ring := o.next, sent := w.sent + Load(w.ring.mem, Passed(w.ring, w.ring.wr.pos, d))))
  {
    var s, t := w.ring, DisplaceWrite(w.ring, newPos).next;
    var passed := Passed(s, s.wr.pos, Distance(s.wr.pos, newPos, Size(s)));
    DisplaceWriteAppends(s, newPos);
    DisplaceWriteNext(s, newPos);
    PassedAreCells(s, s.data, s.wr.pos, |passed|);
    AfterMoveWrite(w, t, passed);
  }

  lemma AfterMoveWrite<T>(w: World<T>, t: Ring<T>, passed: seq<nat>)
    requires Valid(w) && Inv(t) && w.ring.wr.queuedSize == t.wr.queuedSize == 0
    requires t == w.ring.(data := w.ring.data + |passed|, wr := t.wr)
    requires w.ring.data + |passed| <= w.ring.logical && SameCells(w.ring, t, w.ring.logical)
    requires forall i :: 0 <= i < |passed| ==> passed[i] == Cell(w.ring, w.ring.data + i)
    requires Contents(t) == Contents(w.ring)
               + seq(|passed|, i requires 0 <= i < |passed| => w.ring.mem[Cell(w.ring, w.ring.data + i)])
    ensures forall i :: 0 <= i < |passed| ==> passed[i] < |w.ring.mem|
    ensures Valid(w.(ring := t, sent := w.sent + Load(w.ring.mem, passed)))
  {
    LoadedCells(w.ring, w.ring.data, passed);
    CommittedReaders(w.ring, t, w.reading);
    Regrouped(w.got, Contents(w.ring), Load(w.ring.mem, passed));
  }

  lemma StoreAtKeepsValid<T>(w: World<T>, place: nat, element: T)
    requires Valid(w) && place < w.ring.wr.queuedSize
    ensures Valid(w.(ring := Store(w.ring, w.writing[place], element), staged := w.staged[place := element]))
  {
    var s, t := w.ring, Store(w.ring, w.writing[place], element);
    StoreStages(s, place, element);
    StoredStaging(s, t, place, element);
    AfterStore(w, t, s.data + place, w.staged[place := element]);
  }

  lemma StoredStaging<T>(s: Ring<T>, t: Ring<T>, place: nat, element: T)
    requires Inv(s) && Inv(t) && t.data == s.data && place < s.wr.queuedSize
    requires Window(t) == Window(s)[s.data + place := element]
    ensures Staged(t) == Staged(s)[place := element]
  {
  }

  lemma AfterStore<T>(w: World<T>, t: Ring<T>, at: nat, staged: seq<T>)
    requires Valid(w) && Inv(t) && w.ring.data <= at < |Window(w.ring)|
    requires t == w.ring.(mem := t.mem) && |t.mem| == |w.ring.mem| && Contents(t) == Contents(w.ring)
    requires forall a :: 0 <= a < |t.mem| && a != Cell(w.ring, at) ==> t.mem[a] == w.ring.mem[a]
    requires Staged(t) == staged
    ensures Valid(w.(ring := t, staged := staged))
  {
    StoreMissesReaders(w.ring, t, at, w.reading);
    StoreMovesNobody(w.ring, t, w.writing);
  }

  lemma StoreMovesNobody<T>(s: Ring<T>, t: Ring<T>, writing: seq<nat>)
    requires Inv(s) && Inv(t) && LentForWriting(s, writing) && t == s.(mem := t.mem) && |t.mem| == |s.mem|
    ensures LentForWriting(t, writing)
  {
  }

  lemma StoreMissesReaders<T>(s: Ring<T>, t: Ring<T>, at: nat, reading: seq<nat>)
    requires Inv(s) && Inv(t) && LentForReading(s, reading) && s.data <= at < |Window(s)|
    requires t == s.(mem := t.mem) && |t.mem| == |s.mem|
    requires forall a :: 0 <= a < |s.mem| && a != Cell(s, at) ==> t.mem[a] == s.mem[a]
    ensures LentForReading(t, reading)
  {
    forall j | 0 <= j < |reading|
      ensures t.mem[reading[j]] == t.mem[Cell(t, j)]
    {
      CellsAreDistinct(s, j, at);
    }
  }

  lemma UnwindStepKeepsValid<T>(w: World<T>, max: nat)
    requires Valid(w) && Allowed(w.ring, UnwindGrant(max))
    ensures Valid(Step(w, UnwindGrant(max)))
  {
    if Unwinds(w.ring, max) {
      UnwindGrantKeepsValid(w, max);
    } else if Unwind(w.ring, max).status == Success {
      ReadGrantKeepsValid(w, Min(UnwindRequest(w.ring, max), MaxReadable(w.ring)));
    }
  }

  /** The calls of readers. */
  lemma ReadStepKeepsValid<T>(w: World<T>, op: Op<T>)
    requires Valid(w) && Allowed(w.ring, op)
    requires op.ReadGrant? || op.CommitRead? || op.PopOne? || op.MoveRead?
    ensures Valid(Step(w, op))
  {
    if Call(w.ring, op).status == Success {
      match op
      case ReadGrant(size) => ReadGrantKeepsValid(w, size);
      case CommitRead(size, last) => CommitReadKeepsValid(w, size, last);
      case PopOne => PopOneKeepsValid(w);
      case MoveRead(newPos) => MoveReadKeepsValid(w, newPos);
    }
  }

  /** The calls of writers. */
  lemma WriteStepKeepsValid<T>(w: World<T>, op: Op<T>)
    requires Valid(w) && Allowed(w.ring, op)
    requires op.WriteGrant? || op.CommitWrite? || op.PushOne? || op.MoveWrite? || op.Insert?
    ensures Valid(Step(w, op))
  {
    if Call(w.ring, op).status == Success {
      match op
      case WriteGrant(size) => WriteGrantKeepsValid(w, size);
      case CommitWrite(size, last) => CommitWriteKeepsValid(w, size, last);
      case PushOne(element) => PushOneKeepsValid(w, element);
      case MoveWrite(newPos) => MoveWriteKeepsValid(w, newPos);
      case Insert(size) => MoveWriteKeepsValid(w, InsertTarget(w.ring, size));
    }
  }

  lemma StepKeepsValid<T>(w: World<T>, op: Op<T>)
    requires Valid(w) && Allowed(w.ring, op)
    ensures Valid(Step(w, op))
  {
    match op
    case StoreAt(place, element) => StoreAtKeepsValid(w, place, element);
    case UnwindGrant(max) => UnwindStepKeepsValid(w, max);
    case ReadGrant(_) => ReadStepKeepsValid(w, op);
    case CommitRead(_, _) => ReadStepKeepsValid(w, op);
    case PopOne => ReadStepKeepsValid(w, op);
    case MoveRead(_) => ReadStepKeepsValid(w, op);
    case _ => WriteStepKeepsValid(w, op);
  }

  // ---------------------------------------------------------------- runs

  /** One call, left out when it is outside the regime. */
  ghost function Advance<T>(w: World<T>, op: Op<T>): World<T> {
    if Valid(w) && Allowed(w.ring, op) then Step(w, op) else w
  }

  lemma AdvanceKeepsValid<T>(w: World<T>, op: Op<T>)
    requires Valid(w)
    ensures Valid(Advance(w, op))
  {
    if Allowed(w.ring, op) {
      StepKeepsValid(w, op);
    }
  }

  /** The worlds a sequence of calls goes through. */
  ghost predicate IsRun<T>(worlds: seq<World<T>>, ops: seq<Op<T>>) {
    && |worlds| == |ops| + 1
    && forall k :: 0 <= k < |ops| ==> worlds[k + 1] == Advance(worlds[k], ops[k])
  }

  lemma {:induction false} RunStaysValid<T>(worlds: seq<World<T>>, ops: seq<Op<T>>, k: nat)
    requires IsRun(worlds, ops) && Valid(worlds[0]) && k < |worlds|
    ensures Valid(worlds[k])
  {
    if k > 0 {
      RunStaysValid(worlds, ops, k - 1);
      AdvanceKeepsValid(worlds[k - 1], ops[k - 1]);
      assert worlds[k - 1 + 1] == Advance(worlds[k - 1], ops[k - 1]);
    }
  }

  ghost function Start<T>(s: Ring<T>): World<T>
    requires Inv(s)
  {
    World(s, Contents(s), [], [], [], [])
  }

  lemma StartIsValid<T>(s: Ring<T>)
    requires Inv(s) && s.rd.queuedSize == 0 && s.wr.queuedSize == 0
    ensures Valid(Start(s))
  {
  }

  /** In every run the elements consumed, followed by the elements still stored, are the elements
      committed: nothing is lost, duplicated or reordered, whatever happens to the modulus. The cells
      still lent to writers hold what the writers left there, so that a commit, which is recorded as
      the staged elements, appends what was stored and nothing else. */
  lemma RunsAreFifo<T>(s: Ring<T>, worlds: seq<World<T>>, ops: seq<Op<T>>, k: nat)
    requires Inv(s) && s.rd.queuedSize == 0 && s.wr.queuedSize == 0
    requires IsRun(worlds, ops) && worlds[0] == Start(s) && k < |worlds|
    ensures var w := worlds[k];
            && Inv(w.ring)
            && w.sent == w.got + Contents(w.ring)
            && (forall j :: 0 <= j < |w.writing| ==> w.writing[j] < |w.ring.mem|)
            && Load(w.ring.mem, w.writing) == w.staged
  {
    StartIsValid(s);
    RunStaysValid(worlds, ops, k);
    LoadedStaged(worlds[k].ring, worlds[k].writing);
  }

  /** In every reachable state the cells lent to writers are pairwise different cells of the ring,
      none of them unread and none of them lent to a reader; readers see the oldest elements. */
  lemma LoansNeverOverlap<T>(s: Ring<T>, worlds: seq<World<T>>, ops: seq<Op<T>>, k: nat)
    requires Inv(s) && s.rd.queuedSize == 0 && s.wr.queuedSize == 0
    requires IsRun(worlds, ops) && worlds[0] == Start(s) && k < |worlds|
    ensures var w := worlds[k];
            && Valid(w)
            && (forall i, j :: 0 <= i < j < |w.writing| ==> w.writing[i] != w.writing[j])
            && (forall j, a :: 0 <= j < |w.writing| && a in w.reading ==> w.writing[j] != a)
            && (forall i, j :: 0 <= j < |w.writing| && 0 <= i < w.ring.data ==>
                  w.ring.pre <= w.writing[j] < |w.ring.mem|
                  && w.writing[j] != Cell(w.ring, i))
            && |w.reading| <= |Contents(w.ring)|
            && Load(w.ring.mem, w.reading) == Contents(w.ring)[..|w.reading|]
  {
    StartIsValid(s);
    RunStaysValid(worlds, ops, k);
    LoansAreDisjoint(worlds[k]);
    WholeReading(worlds[k].ring, worlds[k].reading);
  }

  lemma WholeReading<T>(s: Ring<T>, reading: seq<nat>)
    requires Inv(s) && LentForReading(s, reading)
    ensures |reading| <= |Contents(s)| && Load(s.mem, reading) == Contents(s)[..|reading|]
  {
    LoadedPrefix(s, reading, |reading|);
    assert reading[..|reading|] == reading;
  }

  lemma LoansAreDisjoint<T>(w: World<T>)
    requires Valid(w)
    ensures forall i, j :: 0 <= i < j < |w.writing| ==> w.writing[i] != w.writing[j]
    ensures forall i, j :: 0 <= j < |w.writing| && 0 <= i < w.ring.data ==>
              w.ring.pre <= w.writing[j] < |w.ring.mem| && w.writing[j] != Cell(w.ring, i)
    ensures forall j, a :: 0 <= j < |w.writing| && a in w.reading ==> w.writing[j] != a
  {
    var t := w.ring;
    forall i, j | 0 <= j < |w.writing| && 0 <= i < t.data
      ensures t.pre <= w.writing[j] < |t.mem| && w.writing[j] != Cell(t, i)
    {
      CellsAreDistinct(t, i, t.data + j);
    }
    forall i, j | 0 <= i < j < |w.writing|
      ensures w.writing[i] != w.writing[j]
    {
      CellsAreDistinct(t, t.data + i, t.data + j);
    }
  }
}
