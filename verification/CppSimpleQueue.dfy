/** A FIFO with its own pool of elements: the producer fills the storage it is handed, then pushes it. */
module CppSimpleQueues {
  import opened Words
  import opened SimpleQueues

  /** Address of a pool element. */
  function Pointer(i: nat): int {
    i + 1
  }

  /** The addresses of `count` elements of a pool of n, round the end. */
  ghost function Pool(n: nat, first: nat, count: nat): (pool: seq<int>)
    requires first < n && count <= n
    ensures |pool| == count
    ensures forall i {:trigger pool[i]} :: 0 <= i < count ==> pool[i] == Pointer(Wrap(first + i, n))
  {
    seq(count, i requires 0 <= i < count => Pointer(Wrap(first + i, n)))
  }

  lemma PoolPrepended(n: nat, first: nat, count: nat)
    requires first < n && 0 < count <= n
    ensures Pool(n, first, count) == [Pointer(first)] + Pool(n, Wrap(first + 1, n), count - 1)
  {
    var pool, rest := Pool(n, first, count), Pool(n, Wrap(first + 1, n), count - 1);
    forall i | 0 <= i < count
      ensures pool[i] == ([Pointer(first)] + rest)[i]
    {
      assert i > 0 ==> Wrap(Wrap(first + 1, n) + (i - 1), n) == Wrap(first + i, n);
    }
  }

  lemma PoolExtendsIff(n: nat, first: nat, count: nat, element: int)
    requires first < n && count < n
    ensures Pool(n, first, count) + [element] == Pool(n, first, count + 1)
       <==> element == Pointer(Wrap(first + count, n))
  {
    assert (Pool(n, first, count) + [element])[count] == element;
  }

  /** Every queued pointer is the pool element with the index of its cell, and so is every element
      handed out, with the cell it will be pushed into; `next` is handed out next. */
  ghost predicate InStep(n: nat, front: nat, count: nat, rear: nat, lent: nat, next: nat, queued: seq<int>) {
    && front < n && count + lent <= n
    && rear == Wrap(front + count, n) && next == Wrap(rear + lent, n)
    && queued == Pool(n, front, count)
  }

  /** With room behind the elements queued and handed out, the next one is none of them. */
  lemma NextIsFree(n: nat, front: nat, count: nat, rear: nat, lent: nat, next: nat, queued: seq<int>)
    requires InStep(n, front, count, rear, lent, next, queued) && count + lent < n
    ensures Pointer(next) !in queued && Pointer(next) !in Pool(n, rear, lent)
    ensures Pool(n, rear, lent + 1) == Pool(n, rear, lent) + [Pointer(next)]
    ensures InStep(n, front, count, rear, lent + 1, Wrap(next + 1, n), queued)
  {
  }

  lemma NextIsFirst(n: nat, front: nat, count: nat, rear: nat, lent: nat, next: nat, queued: seq<int>)
    requires InStep(n, front, count, rear, lent, next, queued) && count + lent == n
    ensures Pointer(next) == (queued + Pool(n, rear, lent))[0]
  {
  }

  /** After a push the pool is in step exactly when the element was the one handed out first. */
  lemma PushedInStep(n: nat, front: nat, count: nat, rear: nat, lent: nat, next: nat, queued: seq<int>,
                     element: int)
    requires InStep(n, front, count, rear, lent, next, queued) && count < n
    ensures InStep(n, front, count + 1, Wrap(rear + 1, n), if lent > 0 then lent - 1 else 0, next, queued + [element])
       <==> element == Pointer(rear) && (lent > 0 || n == 1)
    ensures lent > 0 ==> Pool(n, rear, lent) == [Pointer(rear)] + Pool(n, Wrap(rear + 1, n), lent - 1)
  {
    PoolExtendsIff(n, front, count, element);
    if lent > 0 {
      PoolPrepended(n, rear, lent);
    }
  }

  lemma PoppedInStep(n: nat, front: nat, count: nat, rear: nat, lent: nat, next: nat, queued: seq<int>,
                     element: int, rest: seq<int>)
    requires InStep(n, front, count, rear, lent, next, queued) && 0 < count && queued == [element] + rest
    ensures element == Pointer(front)
    ensures InStep(n, Wrap(front + 1, n), count - 1, rear, lent, next, rest)
  {
    PoolPrepended(n, front, count);
    assert rest == ([element] + rest)[1..];
  }

  class CppSimpleQueue {
    const queue: SimpleQueue
    var elementsPointer: nat
    /** How many pool elements were handed out and not pushed yet. */
    ghost var lent: nat

    function Size(): nat {
      queue.elements.Length
    }

    ghost predicate Valid()
      reads this, queue, queue.elements
    {
      && queue.Valid()
      && InStep(Size(), queue.front, queue.elementsCount, queue.rear, lent, elementsPointer, queue.Contents())
    }

    /** The elements handed out, the first one first. */
    ghost function Lent(): seq<int>
      requires Valid()
      reads this, queue, queue.elements
    {
      Pool(Size(), queue.rear, lent)
    }

    constructor (buffer: array<int>)
      requires 0 < buffer.Length && 2 * buffer.Length < WORD
      modifies buffer
      ensures Valid() && Lent() == [] && queue.Contents() == [] && queue.elements == buffer && fresh(queue)
    {
      elementsPointer := 0;
      queue := new SimpleQueue.QueueInit(buffer);
      lent := 0;
    }

    /** Pushes any pointer. The pool stays in step exactly when it is the element that was handed out
        first (in a pool of one element also when that one was not handed out). */
    method QPush(element: int) returns (ec: Status)
      requires Valid()
      modifies this, queue, queue.elements
      ensures queue.Valid() && lent == if ec == Success && old(lent) > 0 then old(lent) - 1 else old(lent)
      ensures ec == (if old(queue.elementsCount) == Size() then QueueFull else Success)
      ensures queue.Contents() == if ec == Success then old(queue.Contents()) + [element] else old(queue.Contents())
      ensures Valid() <==>
              ec != Success || (element == Pointer(old(queue.rear)) && (old(lent) > 0 || Size() == 1))
      ensures Valid() && ec == Success && old(lent) > 0 ==> old(Lent()) == [element] + Lent()
    {
      ghost var front, count, rear, contents := queue.front, queue.elementsCount, queue.rear, queue.Contents();
      ec := queue.Push(element);
      if ec == Success {
        assert queue.front == front && queue.rear == Wrap(rear + 1, Size()) && queue.elementsCount == count + 1;
        PushedInStep(Size(), front, count, rear, lent, elementsPointer, contents, element);
        lent := if lent > 0 then lent - 1 else 0;
      }
    }

    method QPop() returns (ec: Status, element: int)
      requires Valid()
      modifies this, queue, queue.elements
      ensures Valid() && lent == old(lent) && elementsPointer == old(elementsPointer) && Lent() == old(Lent())
      ensures ec == Success <==> old(queue.elementsCount) > 0
      ensures queue.rear == old(queue.rear)
      ensures ec == Success ==>
                element == Pointer(old(queue.front)) && old(queue.Contents()) == [element] + queue.Contents()
      ensures ec != Success ==> queue.Contents() == old(queue.Contents())
      ensures queue.elementsCount == if ec == Success then old(queue.elementsCount) - 1 else old(queue.elementsCount)
    {
      ghost var front, count, contents := queue.front, queue.elementsCount, queue.Contents();
      ec, element := queue.Pop();
      if ec == Success {
        PoppedInStep(Size(), front, count, queue.rear, lent, elementsPointer, contents, element, queue.Contents());
      }
    }

    /** The queue is not full, but all other elements have been handed out. */
    ghost predicate Exhausted()
      requires Valid()
      reads this, queue, queue.elements
    {
      queue.elementsCount < Size() == queue.elementsCount + lent
    }

    /** The storage handed out is no queued element and was not handed out before, also when the oldest
        one had to be evicted, unless the pool is exhausted. Then, since only the queue is checked, it is
        the oldest queued element or, with none queued, the one handed out first. */
    method GetFreeElement(force: bool) returns (result: int)
      requires Valid()
      modifies this, queue, queue.elements
      decreases force
      ensures queue.Valid() && queue.rear == old(queue.rear)
      ensures result == NULL <==> old(queue.elementsCount) == Size() && !force
      ensures lent == if result == NULL then old(lent) else old(lent) + 1
      ensures Valid() <==> !old(Exhausted())
      ensures Valid() && result != NULL ==> result !in queue.Contents() && Lent() == old(Lent()) + [result]
      ensures Valid() && result != NULL ==> result !in old(Lent())
      ensures !Valid() ==> result == (old(queue.Contents()) + old(Lent()))[0]
      ensures !(old(queue.elementsCount) == Size() && force) ==> queue.Contents() == old(queue.Contents())
      ensures old(queue.elementsCount) == Size() && force ==> old(queue.Contents()) == [result] + queue.Contents()
    {
      result := NULL;
      if !queue.IsFull() {
        result := HandOut();
      } else if force {
        var _, oldest := QPop();
        assert oldest == Pointer(queue.rear);
        assert old(queue.Contents()) == [oldest] + queue.Contents();
        result := GetFreeElement(false);
        assert Lent() == [result] && Lent()[0] == oldest;
      }
    }

    /** The branch for a queue with room. */
    method HandOut() returns (result: int)
      requires Valid() && !queue.IsFull()
      modifies this
      ensures result == Pointer(old(elementsPointer)) && lent == old(lent) + 1
      ensures Valid() <==> !old(Exhausted())
      ensures Valid() ==> result !in queue.Contents() && Lent() == old(Lent()) + [result]
      ensures Valid() ==> result !in old(Lent())
      ensures !Valid() ==> result == (old(queue.Contents()) + old(Lent()))[0]
    {
      result := Pointer(elementsPointer);
      if queue.elementsCount + lent < Size() {
        NextIsFree(Size(), queue.front, queue.elementsCount, queue.rear, lent, elementsPointer, queue.Contents());
      } else {
        NextIsFirst(Size(), queue.front, queue.elementsCount, queue.rear, lent, elementsPointer, queue.Contents());
      }
      ModIsWrap(elementsPointer + 1, if Size() == 1 then 2 else Size());
      elementsPointer := elementsPointer + 1;
      elementsPointer := elementsPointer % Size();
      lent := lent + 1;
    }

    /** No two queued pointers share storage. */
    lemma QueuedAreDistinct(i: nat, j: nat)
      requires Valid() && i < j < queue.elementsCount
      ensures queue.Contents()[i] != queue.Contents()[j]
    {
    }
  }
}
