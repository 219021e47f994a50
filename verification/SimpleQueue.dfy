/** The pointer FIFO over an array supplied by the caller. Pointers are numbers, NULL is 0. */
module SimpleQueues {
  import opened Words

  const NULL: int := 0

  datatype Status = Success | QueueFull | QueueEmpty | NullPointer

  /** The array read from position `front` on, once round. */
  ghost function Rotated(cells: seq<int>, front: nat): (r: seq<int>)
    requires front < |cells| || (front == 0 && cells == [])
    ensures |r| == |cells|
    ensures forall i {:trigger r[i]} :: 0 <= i < |cells| ==> r[i] == cells[Wrap(front + i, |cells|)]
  {
    seq(|cells|, i requires 0 <= i < |cells| => cells[Wrap(front + i, |cells|)])
  }

  lemma RotatedUpdate(cells: seq<int>, front: nat, i: nat, v: int)
    requires front < |cells| && i < |cells|
    ensures Rotated(cells[Wrap(front + i, |cells|) := v], front) == Rotated(cells, front)[i := v]
  {
    var after := cells[Wrap(front + i, |cells|) := v];
    forall j | 0 <= j < |cells|
      ensures Rotated(after, front)[j] == Rotated(cells, front)[i := v][j]
    {
      assert j != i ==> Wrap(front + j, |cells|) != Wrap(front + i, |cells|);
    }
  }

  /** Starting one cell later turns the first element into the last. */
  lemma RotatedNext(cells: seq<int>, front: nat)
    requires front < |cells|
    ensures Rotated(cells, Wrap(front + 1, |cells|)) == Rotated(cells, front)[1..] + [Rotated(cells, front)[0]]
    ensures Rotated(cells, front)[0] == cells[front]
  {
    var next := Wrap(front + 1, |cells|);
    forall j | 0 <= j < |cells|
      ensures Rotated(cells, next)[j] == (Rotated(cells, front)[1..] + [Rotated(cells, front)[0]])[j]
    {
      if j + 1 < |cells| {
        assert Wrap(next + j, |cells|) == Wrap(front + (j + 1), |cells|);
      } else {
        assert Wrap(next + j, |cells|) == Wrap(front + 0, |cells|);
      }
    }
  }

  lemma RotatedNulls(cells: seq<int>)
    requires forall i :: 0 <= i < |cells| ==> cells[i] == NULL
    ensures forall i :: 0 <= i < |cells| ==> Rotated(cells, 0)[i] == NULL
  {
  }

  /** Clearing the front cell and moving on keeps the rest of the queue. */
  lemma Advanced(cells: seq<int>, front: nat, rear: nat, count: nat)
    requires front < |cells| && 0 < count <= |cells| && rear == Wrap(front + count, |cells|)
    requires forall i :: count <= i < |cells| ==> Rotated(cells, front)[i] == NULL
    ensures var next := (front + 1) % |cells|;
            var after := Rotated(cells[front := NULL], next);
            && next == Wrap(front + 1, |cells|) < |cells| && rear == Wrap(next + (count - 1), |cells|)
            && Rotated(cells, front)[..count] == [cells[front]] + after[..count - 1]
            && forall i :: count - 1 <= i < |cells| ==> after[i] == NULL
  {
    if |cells| > 1 {
      ModIsWrap(front + 1, |cells|);
    }
    RotatedUpdate(cells, front, 0, NULL);
    RotatedNext(cells, front);
    RotatedNext(cells[front := NULL], front);
  }

  function FirstIndex(s: seq<int>, e: int): (k: nat)
    ensures k <= |s|
    ensures forall i :: 0 <= i < k ==> s[i] != e
    ensures k < |s| ==> s[k] == e
  {
    if s == [] || s[0] == e then 0 else 1 + FirstIndex(s[1..], e)
  }

  /** The queue after deleting the first occurrence of an element, the rest in order. */
  function WithoutFirst(s: seq<int>, e: int): seq<int> {
    var k := FirstIndex(s, e);
    if k < |s| then s[..k] + s[k + 1..] else s
  }

  /** When Remove deletes the first occurrence from a queue in n cells: the element has to be there,
      and a full queue must not be left with a pointer at its front. */
  predicate Removable(queue: seq<int>, n: nat, e: int) {
    var rest := WithoutFirst(queue, e);
    e in queue && (|queue| < n || rest == [] || rest[0] == NULL)
  }

  /** The cells after k rounds of the loop in Remove: from the first occurrence on they moved down. */
  ghost predicate Shifted(before: seq<int>, after: seq<int>, f: nat, k: nat)
  {
    && |before| == |after| && k <= |before|
    && (forall j {:trigger after[j]} :: 0 <= j < |before| && !(f <= j < k) ==> after[j] == before[j])
    && (forall j {:trigger after[j]} :: f <= j < k && j + 1 < |before| ==> after[j] == before[j + 1])
    && (f < k == |before| ==> after[|before| - 1] == after[0])
  }

  class SimpleQueue {
    var rear: nat
    var front: nat
    var elementsCount: nat
    const elements: array<int>

    ghost predicate Valid()
      reads this, elements
    {
      && elementsCount <= elements.Length
      && (elements.Length == 0 ==> front == rear == 0)
      && (elements.Length > 0 ==> front < elements.Length && rear == Wrap(front + elementsCount, elements.Length))
      && 2 * elements.Length < WORD
      && forall i :: elementsCount <= i < elements.Length ==> Rotated(elements[..], front)[i] == NULL
    }

    ghost function Contents(): seq<int>
      requires Valid()
      reads this, elements
    {
      Rotated(elements[..], front)[..elementsCount]
    }

    constructor QueueInit(buffer: array<int>)
      requires 2 * buffer.Length < WORD
      modifies buffer
      ensures Valid() && Contents() == [] && elements == buffer && front == rear == 0
    {
      rear, front, elementsCount := 0, 0, 0;
      elements := buffer;
      new;
      forall i | 0 <= i < buffer.Length {
        buffer[i] := NULL;
      }
      RotatedNulls(elements[..]);
    }

    predicate IsFull()
      reads this
    {
      elementsCount >= elements.Length
    }

    predicate IsFree()
      reads this
    {
      elementsCount == 0
    }

    method Push(element: int) returns (ec: Status)
      requires Valid()
      modifies this, elements
      ensures Valid() && front == old(front)
      ensures ec == (if old(elementsCount) == elements.Length then QueueFull else Success)
      ensures Contents() == if ec == Success then old(Contents()) + [element] else old(Contents())
      ensures ec == Success ==>
                && elements[..] == old(elements[..])[old(rear) := element]
                && rear == Wrap(old(rear) + 1, elements.Length)
                && elementsCount == old(elementsCount) + 1
    {
      if IsFull() {
        return QueueFull;
      }
      RotatedUpdate(elements[..], front, elementsCount, element);
      ModIsWrap(rear + 1, if elements.Length == 1 then 2 else elements.Length);
      elements[rear] := element;
      rear := (rear + 1) % elements.Length;
      elementsCount := elementsCount + 1;
      ec := Success;
    }

    method Pop() returns (ec: Status, element: int)
      requires Valid()
      modifies this, elements
      ensures Valid() && rear == old(rear)
      ensures ec == (if old(elementsCount) == 0 then QueueEmpty else Success)
      ensures front == if ec == Success then Wrap(old(front) + 1, elements.Length) else old(front)
      ensures ec == Success ==> old(Contents()) == [element] + Contents()
      ensures ec == Success ==> elements[..] == old(elements[..])[old(front) := NULL]
      ensures ec != Success ==> Contents() == old(Contents()) && elements[..] == old(elements[..])
    {
      element := NULL;
      if IsFree() {
        return QueueEmpty, element;
      }
      element := elements[front];
      ghost var before := elements[..];
      elements[front] := NULL;
      Advanced(before, front, rear, elementsCount);
      front := (front + 1) % elements.Length;
      elementsCount := elementsCount - 1;
      ec := Success;
    }

    method Peek(hasTarget: bool) returns (ec: Status, element: int)
      requires Valid()
      ensures ec == (if !hasTarget then NullPointer else if elementsCount == 0 then QueueEmpty else Success)
      ensures ec == Success ==> element == Contents()[0]
    {
      element := NULL;
      if !hasTarget {
        return NullPointer, element;
      }
      if IsFree() {
        return QueueEmpty, element;
      }
      RotatedNext(elements[..], front);
      return Success, elements[front];
    }

    /** Deletes the first occurrence, exactly when the element is present and the queue is not full,
        or nothing but a NULL pointer is left at its front. An absent element costs the newest entry
        instead, and a full queue loses the pointer at its front. */
    method Remove(element: int) returns (ec: Status)
      requires Valid()
      modifies this, elements
      ensures element == NULL ==> ec == NullPointer && Valid() && Contents() == old(Contents())
      ensures element != NULL && old(elementsCount) == 0 ==>
                ec == QueueEmpty && Valid() && Contents() == old(Contents())
      ensures element != NULL && old(elementsCount) > 0 ==>
                && ec == Success
                && elementsCount == old(elementsCount) - 1 && front == old(front)
                && (Valid() && Contents() == WithoutFirst(old(Contents()), element) <==>
                      old(Removable(Contents(), elements.Length, element)))
      ensures element != NULL && element !in old(Contents()) && 0 < old(elementsCount) < elements.Length ==>
                Rotated(elements[..], front)[..elementsCount] == old(Contents())[..elementsCount]
      ensures element != NULL && old(elementsCount) == elements.Length > 1 ==> Rotated(elements[..], front)[0] == NULL
    {
      if element == NULL {
        return NullPointer;
      }
      if IsFree() {
        return QueueEmpty;
      }
      DeleteFirst(element);
      ec := Success;
    }

    /** Remove behind its checks. */
    method DeleteFirst(element: int)
      requires Valid() && 0 < elementsCount
      modifies this, elements
      ensures elementsCount == old(elementsCount) - 1 && front == old(front)
      ensures Valid() && Contents() == WithoutFirst(old(Contents()), element) <==>
                old(Removable(Contents(), elements.Length, element))
      ensures front < elements.Length
      ensures element !in old(Contents()) && old(elementsCount) < elements.Length ==>
                Rotated(elements[..], front)[..elementsCount] == old(Contents())[..elementsCount]
      ensures old(elementsCount) == elements.Length ==> Rotated(elements[..], front)[0] == NULL
    {
      ghost var before := Rotated(elements[..], front);
      CloseGap(element);
      Finished(before, Rotated(elements[..], front), FirstIndex(before[..elementsCount], element),
               elementsCount, element);
      DropLast();
    }

    /** The end of Remove: clears the cell at rear and moves rear back. */
    method DropLast()
      requires 0 < elementsCount <= elements.Length && front < elements.Length
      requires rear == Wrap(front + elementsCount, elements.Length)
      modifies this, elements
      ensures front == old(front) && elementsCount == old(elementsCount) - 1
      ensures rear == Wrap(front + elementsCount, elements.Length)
      ensures Rotated(elements[..], front)
           == old(Rotated(elements[..], front)[(if elementsCount < elements.Length then elementsCount else 0) := NULL])
    {
      RotatedUpdate(elements[..], front, if elementsCount < elements.Length then elementsCount else 0, NULL);
      elements[rear] := NULL;
      if rear == 0 {
        rear := elements.Length - 1;
      } else {
        rear := rear - 1;
      }
      elementsCount := elementsCount - 1;
    }

    /** The loop of Remove: from the first occurrence on every pointer moves one place down. */
    method CloseGap(element: int)
      requires 0 < elementsCount <= elements.Length && front < elements.Length
      modifies elements
      ensures var before := old(Rotated(elements[..], front));
              Shifted(before, Rotated(elements[..], front),
                      FirstIndex(before[..elementsCount], element), elementsCount)
    {
      ghost var before := Rotated(elements[..], front);
      ghost var f := FirstIndex(before[..elementsCount], element);
      ghost var now := before;
      assert forall i :: 0 <= i < elementsCount ==> before[..elementsCount][i] == before[i];
      var found := false;
      var index := front;
      while index < front + elementsCount
        modifies elements
        invariant front <= index <= front + elementsCount
        invariant now == Rotated(elements[..], front)
        invariant found <==> f < index - front
        invariant IsFirst(before, elementsCount, element, f)
        invariant Shifted(before, now, f, index - front)
      {
        found, now := Round(index, found, element, before, now, f);
        index := index + 1;
      }
    }

    /** The body of that loop, with what it does to the shifted prefix. */
    method Round(index: nat, foundBefore: bool, element: int, ghost before: seq<int>, ghost now: seq<int>, ghost f: nat)
      returns (found: bool, ghost next: seq<int>)
      requires front < elements.Length && elementsCount <= elements.Length == |before|
      requires front <= index < front + elementsCount
      requires now == Rotated(elements[..], front) && IsFirst(before, elementsCount, element, f)
      requires foundBefore <==> f < index - front
      requires Shifted(before, now, f, index - front)
      modifies elements
      ensures next == Rotated(elements[..], front)
      ensures found <==> f < index + 1 - front
      ensures Shifted(before, next, f, index + 1 - front)
    {
      next := AfterRound(before, now, elementsCount, element, f, index - front);
      found := MoveDown(index, foundBefore, element, now);
    }

    /** The assignments of the loop body. */
    method MoveDown(index: nat, foundBefore: bool, element: int, ghost now: seq<int>) returns (found: bool)
      requires front < elements.Length && front <= index < front + elements.Length
      requires now == Rotated(elements[..], front)
      modifies elements
      ensures found == (foundBefore || now[index - front] == element)
      ensures !found ==> Rotated(elements[..], front) == now
      ensures found ==>
                var k := index - front;
                Rotated(elements[..], front) == now[k := now[if k + 1 < elements.Length then k + 1 else 0]]
    {
      var thisIndex := index % elements.Length;
      var nextIndex := (index + 1) % elements.Length;
      NextPlace(index, front, elements.Length);
      found := foundBefore;
      if !found {
        found := elements[thisIndex] == element;
      }
      if found {
        RotatedUpdate(elements[..], front, index - front, elements[nextIndex]);
        elements[thisIndex] := elements[nextIndex];
      }
    }
  }

  /** Place f holds the first occurrence of e; f == count when there is none. */
  ghost predicate IsFirst(s: seq<int>, count: nat, e: int, f: nat) {
    && f <= count <= |s|
    && (forall i :: 0 <= i < f ==> s[i] != e)
    && (f < count ==> s[f] == e)
  }

  /** The cells after one more round of the loop in Remove. */
  ghost function AfterRound(before: seq<int>, now: seq<int>, count: nat, e: int, f: nat, k: nat): (after: seq<int>)
    requires k < count && IsFirst(before, count, e, f) && Shifted(before, now, f, k)
    ensures k < f ==> now[k] != e && after == now
    ensures k == f ==> now[k] == e
    ensures f <= k ==> after == now[k := now[if k + 1 < |before| then k + 1 else 0]]
    ensures Shifted(before, after, f, k + 1)
  {
    if f <= k then now[k := now[if k + 1 < |before| then k + 1 else 0]] else now
  }

  lemma NextPlace(index: nat, front: nat, n: nat)
    requires front < n && front <= index < front + n
    ensures index % n == Wrap(front + (index - front), n)
    ensures (index + 1) % n == if index + 1 == front + n then front else Wrap(index + 1, n)
  {
    ModIsWrap(index, n);
    ModIsWrap(index + 1, n);
  }

  /** What is left after the loop and after clearing the cell behind the last element. */
  lemma Finished(before: seq<int>, after: seq<int>, f: nat, count: nat, e: int)
    requires 0 < count <= |before| && Shifted(before, after, f, count) && f == FirstIndex(before[..count], e)
    requires forall i :: count <= i < |before| ==> before[i] == NULL
    ensures var cleared := after[(if count < |before| then count else 0) := NULL];
            && ((&& (forall i :: count - 1 <= i < |before| ==> cleared[i] == NULL)
                 && cleared[..count - 1] == WithoutFirst(before[..count], e)) <==>
                  Removable(before[..count], |before|, e))
            && (e !in before[..count] && count < |before| ==> cleared[..count - 1] == before[..count - 1])
  {
    var queue := before[..count];
    if e !in queue {
      assert f == count && WithoutFirst(queue, e) == queue;
    } else {
      FinishedFound(before, after, f, count, e);
    }
  }

  lemma FinishedFound(before: seq<int>, after: seq<int>, f: nat, count: nat, e: int)
    requires 0 < count <= |before| && Shifted(before, after, f, count) && f == FirstIndex(before[..count], e)
    requires e in before[..count] && forall i :: count <= i < |before| ==> before[i] == NULL
    ensures var rest := WithoutFirst(before[..count], e);
            && after[..count - 1] == rest
            && (count < |before| ==> after[count - 1] == NULL)
            && (count == |before| > 1 ==> after[count - 1] == after[0] == rest[0])
            && (count == |before| > 1 ==> (after[0 := NULL][..count - 1] == rest <==> rest[0] == NULL))
  {
    var queue := before[..count];
    var rest := WithoutFirst(queue, e);
    assert f < count && rest == queue[..f] + queue[f + 1..];
    forall j | 0 <= j < count - 1
      ensures after[j] == rest[j]
    {
      assert after[j] == if j < f then before[j] else before[j + 1];
    }
    if count == |before| > 1 {
      assert after[0 := NULL][..count - 1] == rest[0 := NULL];
    }
  }

  /** For queues without NULL pointers: the element is there, and the queue is not full or has one cell. */
  lemma RemovableWithoutNulls(queue: seq<int>, n: nat, e: int)
    requires NULL !in queue && 0 < |queue| <= n
    ensures Removable(queue, n, e) <==> e in queue && (|queue| < n || n == 1)
  {
    var rest := WithoutFirst(queue, e);
    if e in queue && rest != [] {
      assert rest[0] == if FirstIndex(queue, e) == 0 then queue[1] else queue[0];
    }
  }

  /** Removing an element that is not there costs the newest entry. */
  lemma RemoveAbsentExample()
    ensures var before := [1, 2, NULL];
            && Shifted(before, before, 2, 2) && FirstIndex(before[..2], 9) == 2
            && !Removable(before[..2], 3, 9) && before[2 := NULL][..1] == [1]
  {
    assert [1, 2][1..] == [2];
  }

  /** Removing from a full queue clears the front. */
  lemma RemoveFullExample()
    ensures var before, after := [1, 2, 3], [1, 3, 1];
            && Shifted(before, after, 1, 3) && FirstIndex(before[..3], 2) == 1
            && WithoutFirst(before[..3], 2) == [1, 3]
            && !Removable(before[..3], 3, 2) && after[0 := NULL][..2] == [NULL, 3]
  {
    var before := [1, 2, 3];
    assert before[..3] == before && before[1..] == [2, 3];
    assert FirstIndex(before[1..], 2) == 0;
  }
}
