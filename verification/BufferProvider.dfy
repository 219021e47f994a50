/**
 A first-fit allocator over a fixed arena. Hired buffers are recorded in a table of slots whose
 order has to mirror the address order, because a gap is measured between neighbouring slots.
 */
module BufferProviders {
  import opened Words

  const MAX_BUFFERS: nat := 50
  const NULL: int := 0
  /** Sizes are signed 32-bit, and so are pointer differences. */
  const HALF: int := 0x8000_0000

  datatype Slot = Slot(pointer: int, size: int)

  predicate Hired(slot: Slot) {
    slot.pointer != NULL
  }

  /** Hired buffers lie in the arena, in increasing address order by slot index, without overlap. */
  ghost predicate Ordered(table: seq<Slot>, base: int, top: int) {
    && (forall i :: 0 <= i < |table| ==>
          if Hired(table[i])
          then table[i].size >= 0 && base <= table[i].pointer && table[i].pointer + table[i].size <= top
          else table[i] == Slot(NULL, 0))
    && (forall i, j :: 0 <= i < j < |table| && Hired(table[i]) && Hired(table[j]) ==>
          table[i].pointer + table[i].size <= table[j].pointer)
  }

  /** No buffer is empty; then hired buffers have different addresses. */
  ghost predicate NoneEmpty(table: seq<Slot>) {
    forall i :: 0 <= i < |table| && Hired(table[i]) ==> table[i].size > 0
  }

  lemma PointersDiffer(table: seq<Slot>, base: int, top: int, i: nat, j: nat)
    requires Ordered(table, base, top) && NoneEmpty(table)
    requires i < j < |table| && Hired(table[i]) && Hired(table[j])
    ensures table[i].pointer != table[j].pointer
  {
  }

  /** End of the last buffer hired in a slot before f, or the start of the arena. */
  function Start(table: seq<Slot>, base: int, f: nat): int
    requires f <= |table|
  {
    if f == 0 then base
    else if Hired(table[f - 1]) then table[f - 1].pointer + table[f - 1].size
    else Start(table, base, f - 1)
  }

  /** First buffer hired in slot f or later, or the end of the arena. */
  function Limit(table: seq<Slot>, top: int, f: nat): int
    requires f <= |table|
    decreases |table| - f
  {
    if f == |table| then top
    else if Hired(table[f]) then table[f].pointer
    else Limit(table, top, f + 1)
  }

  /** Slot f is empty and the gap at its place in the table is large enough. */
  predicate Fits(table: seq<Slot>, base: int, top: int, f: nat, size: int) {
    f < |table| && !Hired(table[f]) && Limit(table, top, f) - Start(table, base, f) >= size
  }

  lemma {:induction false} StartIsAfter(table: seq<Slot>, base: int, top: int, f: nat)
    requires Ordered(table, base, top) && base <= top && f <= |table|
    ensures base <= Start(table, base, f) <= top
    ensures forall i :: 0 <= i < f && Hired(table[i]) ==> table[i].pointer + table[i].size <= Start(table, base, f)
    ensures forall j :: f <= j < |table| && Hired(table[j]) ==> Start(table, base, f) <= table[j].pointer
  {
    if f > 0 {
      StartIsAfter(table, base, top, f - 1);
    }
  }

  lemma {:induction false} LimitIsBefore(table: seq<Slot>, base: int, top: int, f: nat)
    requires Ordered(table, base, top) && base <= top && f <= |table|
    ensures base <= Limit(table, top, f) <= top
    ensures forall j :: f <= j < |table| && Hired(table[j]) ==> Limit(table, top, f) <= table[j].pointer
    decreases |table| - f
  {
    if f < |table| && !Hired(table[f]) {
      LimitIsBefore(table, base, top, f + 1);
    }
  }

  /** Later slots stand for later gaps, so the first slot that fits is the lowest gap that fits. */
  lemma {:induction false} StartIsMonotonic(table: seq<Slot>, base: int, top: int, f: nat, g: nat)
    requires Ordered(table, base, top) && base <= top && f <= g <= |table|
    ensures Start(table, base, f) <= Start(table, base, g)
    decreases g
  {
    if f < g {
      StartIsMonotonic(table, base, top, f, g - 1);
      StartIsAfter(table, base, top, g - 1);
    }
  }

  /** Within a run of empty slots all places measure the same gap. */
  lemma {:induction false} SameGap(table: seq<Slot>, base: int, top: int, f: nat, i: nat)
    requires f <= i <= |table| && forall j :: f <= j < i ==> !Hired(table[j])
    ensures Start(table, base, f) == Start(table, base, i)
    ensures Limit(table, top, f) == Limit(table, top, i)
    decreases i - f
  {
    if f < i {
      SameGap(table, base, top, f, i - 1);
      assert Start(table, base, i) == Start(table, base, i - 1);
      assert Limit(table, top, i - 1) == Limit(table, top, i);
    }
  }

  /** A buffer of that size can be put at an address and entered in an empty slot: it lies in the arena,
      behind all buffers of earlier slots and in front of all buffers of later ones. */
  predicate Room(table: seq<Slot>, base: int, top: int, f: nat, address: int, size: int) {
    && f < |table| && table[f].pointer == NULL && base <= address && address + size <= top
    && (forall i :: 0 <= i < f && table[i].pointer != NULL ==> table[i].pointer + table[i].size <= address)
    && (forall j :: f < j < |table| && table[j].pointer != NULL ==> address + size <= table[j].pointer)
  }

  lemma {:induction false} StartIsLowest(table: seq<Slot>, base: int, f: nat, address: int)
    requires f <= |table| && base <= address
    requires forall i :: 0 <= i < f && Hired(table[i]) ==> table[i].pointer + table[i].size <= address
    ensures Start(table, base, f) <= address
  {
    if f > 0 && !Hired(table[f - 1]) {
      StartIsLowest(table, base, f - 1, address);
    }
  }

  lemma {:induction false} LimitIsHighest(table: seq<Slot>, top: int, f: nat, end: int)
    requires f <= |table| && end <= top
    requires forall j :: f <= j < |table| && Hired(table[j]) ==> end <= table[j].pointer
    ensures end <= Limit(table, top, f)
    decreases |table| - f
  {
    if f < |table| && !Hired(table[f]) {
      LimitIsHighest(table, top, f + 1, end);
    }
  }

  /** What the code measures, between the neighbouring buffers of a slot, decides whether there is room
      at all, and the place it takes is then the lowest one with room. */
  lemma FitsIffRoom(table: seq<Slot>, base: int, top: int, f: nat, size: int)
    requires Ordered(table, base, top) && base <= top
    ensures Fits(table, base, top, f, size) <==> exists a :: Room(table, base, top, f, a, size)
    ensures Fits(table, base, top, f, size) ==> Room(table, base, top, f, Start(table, base, f), size)
    ensures forall a :: Room(table, base, top, f, a, size) ==> Start(table, base, f) <= a
  {
    if f < |table| && !Hired(table[f]) {
      StartIsAfter(table, base, top, f);
      LimitIsBefore(table, base, top, f);
      forall a | Room(table, base, top, f, a, size)
        ensures Start(table, base, f) <= a && Fits(table, base, top, f, size)
      {
        StartIsLowest(table, base, f, a);
        LimitIsHighest(table, top, f, a + size);
      }
      if Fits(table, base, top, f, size) {
        assert Room(table, base, top, f, Start(table, base, f), size);
      }
    }
  }

  /** Without room there is no answer; otherwise the answer is the lowest address with room, entered in
      the first slot that has room anywhere. */
  ghost predicate LowestRoom(table: seq<Slot>, after: seq<Slot>, base: int, top: int, size: int, pointer: int) {
    && (pointer == NULL <==> forall f: nat, a :: !Room(table, base, top, f, a, size))
    && (forall f: nat, a :: Room(table, base, top, f, a, size) ==> pointer <= a)
    && (pointer == NULL ==> after == table)
    && (pointer != NULL ==>
          exists f: nat ::
            && Room(table, base, top, f, pointer, size) && after == table[f := Slot(pointer, size % WORD)]
            && forall g: nat, a :: g < f ==> !Room(table, base, top, g, a, size))
  }

  lemma FirstFitIsLowest(table: seq<Slot>, after: seq<Slot>, base: int, top: int, size: int, found: Option<nat>)
    requires Ordered(table, base, top) && 0 < base <= top
    requires forall g: nat :: (if found.Some? then g < found.value else true) ==> !Fits(table, base, top, g, size)
    requires found.Some? ==> Fits(table, base, top, found.value, size)
    requires after == if found.None? then table
                      else table[found.value := Slot(Start(table, base, found.value), size % WORD)]
    ensures LowestRoom(table, after, base, top, size,
                       if found.Some? then Start(table, base, found.value) else NULL)
  {
    forall f: nat, a | Room(table, base, top, f, a, size)
      ensures found.Some? && found.value <= f && Start(table, base, found.value) <= a
    {
      FitsIffRoom(table, base, top, f, size);
      StartIsMonotonic(table, base, top, found.value, f);
    }
    if found.Some? {
      FitsIffRoom(table, base, top, found.value, size);
      StartIsAfter(table, base, top, found.value);
      assert Room(table, base, top, found.value, Start(table, base, found.value), size);
    }
  }

  /** Hiring a gap that fits keeps the order exactly for sizes that are not negative: a negative size
      is stored as a buffer that reaches beyond the arena. */
  lemma HireKeepsOrderIff(table: seq<Slot>, base: int, top: int, f: nat, size: int)
    requires Ordered(table, base, top) && 0 < base <= top < WORD && top - base < HALF
    requires Fits(table, base, top, f, size) && -HALF <= size < HALF
    ensures Ordered(table[f := Slot(Start(table, base, f), size % WORD)], base, top) <==> size >= 0
  {
    StartIsAfter(table, base, top, f);
    LimitIsBefore(table, base, top, f);
    var after := table[f := Slot(Start(table, base, f), size % WORD)];
    assert Hired(after[f]);
    if size >= 0 {
      forall i, j | 0 <= i < j < |after| && Hired(after[i]) && Hired(after[j])
        ensures after[i].pointer + after[i].size <= after[j].pointer
      {
      }
    }
  }

  /** The table after releasing an address: the first slot with that pointer becomes empty. */
  function FirstSlot(table: seq<Slot>, pointer: int, from: nat): (k: nat)
    requires from <= |table|
    ensures from <= k <= |table|
    ensures forall j :: from <= j < k ==> table[j].pointer != pointer
    ensures k < |table| ==> table[k].pointer == pointer
    decreases |table| - from
  {
    if from == |table| || table[from].pointer == pointer then from else FirstSlot(table, pointer, from + 1)
  }

  function Released(table: seq<Slot>, pointer: int): seq<Slot> {
    var k := FirstSlot(table, pointer, 0);
    if k < |table| then table[k := Slot(NULL, 0)] else table
  }

  lemma ReleaseKeepsOrder(table: seq<Slot>, base: int, top: int, pointer: int)
    requires Ordered(table, base, top)
    ensures Ordered(Released(table, pointer), base, top)
    ensures forall j :: 0 <= j < |table| && table[j].pointer != pointer ==> Released(table, pointer)[j] == table[j]
    ensures pointer == NULL ==> Released(table, pointer) == table
  {
  }

  /** Releasing what was just hired restores the table exactly when no earlier slot holds the same
      address, which only an empty buffer can. */
  lemma ReleaseUndoesHireIff(table: seq<Slot>, base: int, top: int, f: nat, size: int)
    requires Ordered(table, base, top) && 0 < base <= top < WORD && 0 <= size < WORD
    requires Fits(table, base, top, f, size)
    ensures var start := Start(table, base, f);
            var back := Released(table[f := Slot(start, size)], start);
            back == table <==> forall j :: 0 <= j < f ==> table[j].pointer != start
    ensures NoneEmpty(table) ==> forall j :: 0 <= j < f ==> table[j].pointer != Start(table, base, f)
  {
    StartIsAfter(table, base, top, f);
    var start := Start(table, base, f);
    var after := table[f := Slot(start, size)];
    var k := FirstSlot(after, start, 0);
    assert after[f].pointer == start;
    assert k <= f;
    if k < f {
      assert table[k].pointer == start && Released(after, start)[k] != table[k];
    } else {
      assert Released(after, start) == table;
    }
  }

  /** After an empty buffer was hired, the next slot starts at the same address: two slots hold it,
      and releasing the second buffer empties the slot of the first. */
  lemma EmptyBufferSharesPointer(table: seq<Slot>, base: int, top: int, f: nat, size: int)
    requires Ordered(table, base, top) && 0 < base <= top
    requires Fits(table, base, top, f, 0) && f + 1 < |table| && !Hired(table[f + 1])
    requires forall j :: 0 <= j < f ==> table[j].pointer != Start(table, base, f)
    ensures var start := Start(table, base, f);
            var once := table[f := Slot(start, 0)];
            var twice := once[f + 1 := Slot(Start(once, base, f + 1), size)];
            && Start(once, base, f + 1) == start
            && Released(twice, start) == twice[f := Slot(NULL, 0)] != once
  {
    StartIsAfter(table, base, top, f);
    var start := Start(table, base, f);
    var once := table[f := Slot(start, 0)];
    var twice := once[f + 1 := Slot(start, size)];
    assert Start(once, base, f + 1) == start;
    assert twice[f].pointer == start;
    assert FirstSlot(twice, start, 0) == f;
  }

  /** A negative size is granted from a fresh table and breaks the order. */
  lemma NegativeSizeExample()
    ensures var table := seq(MAX_BUFFERS, _ => Slot(NULL, 0));
            && Ordered(table, 16, 116) && Fits(table, 16, 116, 0, -1)
            && Start(table, 16, 0) == 16 && !Ordered(table[0 := Slot(16, -1 % WORD)], 16, 116)
  {
    var table := seq(MAX_BUFFERS, _ => Slot(NULL, 0));
    SameGap(table, 16, 116, 0, MAX_BUFFERS);
    HireKeepsOrderIff(table, 16, 116, 0, -1);
  }

  class BufferProvider {
    const buffer: int
    const totalSize: int
    const hired: array<Slot>

    predicate Arena()
      reads this
    {
      0 < buffer && 0 <= totalSize < HALF && buffer + totalSize < WORD && hired.Length == MAX_BUFFERS
    }

    function Top(): int
      reads this
    {
      buffer + totalSize
    }

    ghost predicate Valid()
      reads this, hired
    {
      Arena() && Ordered(hired[..], buffer, Top())
    }

    constructor (buffer: int, totalSize: int)
      requires 0 < buffer && 0 <= totalSize < HALF && buffer + totalSize < WORD
      ensures Valid() && this.buffer == buffer && this.totalSize == totalSize && fresh(hired)
      ensures forall i :: 0 <= i < MAX_BUFFERS ==> !Hired(hired[i])
    {
      this.buffer := buffer;
      this.totalSize := totalSize;
      hired := new Slot[MAX_BUFFERS](_ => Slot(NULL, 0));
    }

    /** First fit: the lowest address with room for the size, NULL exactly when there is none. The order
        survives exactly the sizes that are not negative, and different addresses the positive ones. */
    method GetBuffer(size: int) returns (pointer: int)
      requires Valid() && -HALF <= size < HALF
      modifies hired
      ensures LowestRoom(old(hired[..]), hired[..], buffer, Top(), size, pointer)
      ensures Valid() <==> pointer == NULL || size >= 0
      ensures old(NoneEmpty(hired[..])) ==> (NoneEmpty(hired[..]) <==> pointer == NULL || size != 0)
    {
      ghost var found;
      pointer, found := FirstFit(size);
      FirstFitIsLowest(old(hired[..]), hired[..], buffer, Top(), size, found);
    }

    /** The search of GetBuffer, with the first slot that fits. */
    method FirstFit(size: int) returns (pointer: int, ghost found: Option<nat>)
      requires Valid() && -HALF <= size < HALF
      modifies hired
      ensures forall g: nat :: (if found.Some? then g < found.value else true) ==>
                !Fits(old(hired[..]), buffer, Top(), g, size)
      ensures found.None? ==> pointer == NULL && hired[..] == old(hired[..]) && Valid()
      ensures found.Some? ==>
                && Fits(old(hired[..]), buffer, Top(), found.value, size)
                && pointer == Start(old(hired[..]), buffer, found.value) != NULL
                && hired[..] == old(hired[..])[found.value := Slot(pointer, size % WORD)]
                && (Valid() <==> size >= 0)
                && (old(NoneEmpty(hired[..])) ==> (NoneEmpty(hired[..]) <==> size != 0))
    {
      ghost var table := hired[..];
      pointer := buffer;
      var foundIndex := -1;
      var i := 0;
      while i < MAX_BUFFERS
        invariant 0 <= i <= MAX_BUFFERS && hired[..] == table
        invariant pointer == Start(table, buffer, i)
        invariant -1 <= foundIndex < i
        invariant forall j :: (if foundIndex < 0 then i else foundIndex) <= j < i ==> !Hired(table[j])
        invariant foundIndex >= 0 ==> !Hired(table[foundIndex])
        invariant forall g :: 0 <= g < (if foundIndex < 0 then i else foundIndex) ==>
                    !Fits(table, buffer, Top(), g, size)
      {
        if hired[i].pointer != NULL {
          if foundIndex >= 0 {
            SameGap(table, buffer, Top(), foundIndex, i);
            if hired[i].pointer - pointer >= size {
              assert Fits(table, buffer, Top(), foundIndex, size);
              Choose(foundIndex, pointer, size);
              found := Some(foundIndex);
              return;
            } else {
              RunTooSmall(table, buffer, Top(), foundIndex, i, size);
              foundIndex := -1;
              pointer := hired[i].pointer + hired[i].size;
            }
          } else {
            pointer := hired[i].pointer + hired[i].size;
          }
        } else {
          if foundIndex == -1 {
            foundIndex := i;
          }
        }
        i := i + 1;
      }
      if foundIndex >= 0 {
        SameGap(table, buffer, Top(), foundIndex, i);
        if buffer + totalSize - pointer >= size {
          assert Fits(table, buffer, Top(), foundIndex, size);
          Choose(foundIndex, pointer, size);
          found := Some(foundIndex);
          return;
        }
        RunTooSmall(table, buffer, Top(), foundIndex, i, size);
      }
      return NULL, None;
    }

    /** Enters the chosen gap into the table. */
    method Choose(f: nat, pointer: int, size: int)
      requires Valid() && -HALF <= size < HALF
      requires Fits(hired[..], buffer, Top(), f, size) && pointer == Start(hired[..], buffer, f)
      modifies hired
      ensures hired[..] == old(hired[..])[f := Slot(pointer, size % WORD)] && pointer != NULL
      ensures Valid() <==> size >= 0
      ensures old(NoneEmpty(hired[..])) ==> (NoneEmpty(hired[..]) <==> size != 0)
    {
      HireKeepsOrderIff(hired[..], buffer, Top(), f, size);
      StartIsAfter(hired[..], buffer, Top(), f);
      hired[f] := Slot(pointer, size % WORD);
      assert Hired(hired[f]) && hired[..][f] == hired[f];
    }

    /** Empties the slot of a hired buffer and no other; anything else changes nothing. The source
        also reads one slot past the table before it finds that the index ran out. */
    method ReleaseBuffer(pointer: int)
      requires Valid()
      modifies hired
      ensures Valid() && hired[..] == Released(old(hired[..]), pointer)
      ensures (forall j :: 0 <= j < MAX_BUFFERS ==> old(hired[j].pointer) != pointer) ==> hired[..] == old(hired[..])
      ensures forall k :: 0 <= k < MAX_BUFFERS && old(hired[k].pointer) == pointer
                          && (forall j :: 0 <= j < k ==> old(hired[j].pointer) != pointer) ==>
                hired[..] == old(hired[..])[k := Slot(NULL, 0)]
    {
      ReleaseKeepsOrder(hired[..], buffer, Top(), pointer);
      var index := 0;
      while index < MAX_BUFFERS && hired[index].pointer != pointer
        invariant 0 <= index <= MAX_BUFFERS && hired[..] == old(hired[..])
        invariant FirstSlot(hired[..], pointer, index) == FirstSlot(hired[..], pointer, 0)
      {
        index := index + 1;
      }
      if MAX_BUFFERS <= index {
        return;
      }
      hired[index] := Slot(NULL, 0);
    }
  }

  lemma RunTooSmall(table: seq<Slot>, base: int, top: int, f: nat, i: nat, size: int)
    requires f <= i <= |table| && forall j :: f <= j < i ==> !Hired(table[j])
    requires Limit(table, top, f) - Start(table, base, f) < size
    ensures forall g :: f <= g < i ==> !Fits(table, base, top, g, size)
  {
    forall g | f <= g < i
      ensures !Fits(table, base, top, g, size)
    {
      SameGap(table, base, top, f, g);
    }
  }
}
