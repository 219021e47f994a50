/** A doubly linked list whose nodes live in an array; a bitmap tells which nodes are taken. */
module PreAllocatedLists {
  import opened Words
  import opened Links

  datatype Status = Success | CannotPush | CannotPut | CannotRemove

  /** The bitmap, with the little that is assumed about it: Alloc takes some free bit if there is one. */
  class Bitmap {
    const used: array<bool>

    constructor (n: nat)
      ensures fresh(used) && used.Length == n && forall i :: 0 <= i < n ==> !used[i]
    {
      used := new bool[n](_ => false);
    }

    method Alloc() returns (idx: Option<nat>)
      modifies used
      ensures idx.None? ==> used[..] == old(used[..]) && forall i :: 0 <= i < used.Length ==> used[i]
      ensures idx.Some? ==>
                idx.value < used.Length && !old(used[idx.value]) && used[..] == old(used[..])[idx.value := true]
    {
      var i := 0;
      while i < used.Length
        invariant i <= used.Length && used[..] == old(used[..])
        invariant forall j :: 0 <= j < i ==> used[j]
      {
        if !used[i] {
          used[i] := true;
          return Some(i);
        }
        i := i + 1;
      }
      return None;
    }

    method Free(idx: nat)
      requires idx < used.Length
      modifies used
      ensures used[..] == old(used[..])[idx := false]
    {
      used[idx] := false;
    }

    predicate IsFree(idx: nat)
      requires idx < used.Length
      reads used
    {
      !used[idx]
    }
  }

  class BiListPreAlloc<T(==)> {
    const items: array<Item<T>>
    const bitmap: Bitmap
    var size: nat
    var head: int
    var tail: int
    /** The nodes of the list, from head to tail. */
    ghost var chain: seq<nat>

    ghost predicate Valid()
      reads this, items, bitmap, bitmap.used
    {
      && bitmap.used.Length == items.Length
      && Linked(items[..], chain)
      && (forall k :: 0 <= k < |chain| ==> chain[k] < items.Length)
      && (forall i :: 0 <= i < items.Length ==> (bitmap.used[i] <==> i in chain))
      && size == |chain|
      && head == (if chain == [] then NIL else chain[0])
      && tail == (if chain == [] then NIL else chain[|chain| - 1])
    }

    /** The sequence the list represents. */
    ghost function Contents(): seq<T>
      requires Valid()
      reads this, items, bitmap, bitmap.used
    {
      Elements(items[..], chain)
    }

    constructor (capacity: nat, anything: T)
      ensures Valid() && chain == [] && Contents() == [] && items.Length == capacity
      ensures fresh(items) && fresh(bitmap) && fresh(bitmap.used)
    {
      items := new Item<T>[capacity](_ => Item(anything, NIL, NIL));
      bitmap := new Bitmap(capacity);
      size, head, tail, chain := 0, NIL, NIL, [];
    }

    function GetFreeSize(): (free: nat)
      requires Valid()
      reads this, items, bitmap, bitmap.used
      ensures free == items.Length - |chain|
    {
      ChainFits(chain, items.Length);
      items.Length - size
    }

    /** The state after linking node `idx` in at place p. */
    ghost method Settle(before: seq<Item<T>>, was: seq<bool>, p: nat, idx: nat, elem: T)
      requires bitmap.used.Length == items.Length == |was|
      requires Linked(before, chain) && p <= |chain| && idx !in chain && LinksIn(before, items[..], chain, p, idx, elem)
      requires forall k :: 0 <= k < |chain| ==> chain[k] < items.Length
      requires forall i :: 0 <= i < items.Length ==> (was[i] <==> i in chain)
      requires bitmap.used[..] == was[idx := true]
      requires size == |chain| + 1
      requires head == if p == 0 then idx else chain[0]
      requires tail == if p == |chain| then idx else chain[|chain| - 1]
      modifies this`chain
      ensures Valid()
      ensures chain == Inserted(old(chain), p, idx)
      ensures Contents() == Inserted(Elements(before, old(chain)), p, elem)
    {
      LinkedIn(before, items[..], chain, p, idx, elem);
      chain := Inserted(chain, p, idx);
    }

    /** Every insertion fails exactly when the list is full, and then changes nothing. */
    method PushBack(elem: T) returns (ec: Status)
      requires Valid()
      modifies this, items, bitmap.used
      ensures Valid()
      ensures ec == (if old(size) == items.Length then CannotPush else Success)
      ensures ec != Success ==> chain == old(chain) && Contents() == old(Contents())
      ensures ec == Success ==>
                && Contents() == old(Contents()) + [elem]
                && chain[..|chain| - 1] == old(chain)
    {
      ghost var before, was := items[..], bitmap.used[..];
      var idx := AllocNode();
      if idx.None? {
        return CannotPush;
      }
      var node := idx.value;
      if chain != [] {
        assert NodeOk(before, chain, |chain| - 1);
      }
      size := size + 1;
      if head == NIL {
        head := node;
        items[node] := Item(elem, NIL, NIL);
        tail := head;
      } else {
        items[tail] := items[tail].(next := node);
        items[node] := Item(elem, tail, NIL);
        tail := items[tail].next;
      }
      Settle(before, was, |chain|, node, elem);
      ec := Success;
    }

    method AllocNode() returns (idx: Option<nat>)
      requires Valid()
      modifies bitmap.used
      ensures idx.None? ==> Valid() && size == items.Length && Contents() == old(Contents())
      ensures idx.Some? ==>
                && idx.value < items.Length && idx.value !in chain && size < items.Length
                && bitmap.used[..] == old(bitmap.used[..])[idx.value := true]
    {
      idx := bitmap.Alloc();
      if idx.None? {
        FullChain(chain, items.Length);
      } else {
        ChainMisses(chain, items.Length, idx.value);
      }
    }

    method PushFront(elem: T) returns (ec: Status)
      requires Valid()
      modifies this, items, bitmap.used
      ensures Valid()
      ensures ec == (if old(size) == items.Length then CannotPush else Success)
      ensures ec != Success ==> chain == old(chain) && Contents() == old(Contents())
      ensures ec == Success ==>
                && Contents() == [elem] + old(Contents())
                && chain != [] && chain[1..] == old(chain)
    {
      ghost var before, was := items[..], bitmap.used[..];
      var idx := AllocNode();
      if idx.None? {
        return CannotPush;
      }
      var node := idx.value;
      if chain != [] {
        assert NodeOk(before, chain, 0);
      }
      size := size + 1;
      if head == NIL {
        head := node;
        items[node] := Item(elem, NIL, NIL);
        tail := head;
      } else {
        items[node] := Item(elem, NIL, head);
        items[head] := items[head].(prev := node);
        head := node;
      }
      Settle(before, was, 0, node, elem);
      ec := Success;
    }

    /** `it` is a node of the list, or NIL for an empty list. `p` is its place. */
    method PutAfter(it: int, elem: T, ghost p: nat) returns (ec: Status)
      requires Valid()
      requires if it == NIL then chain == [] else p < |chain| && it == chain[p]
      modifies this, items, bitmap.used
      ensures Valid()
      ensures ec == Success <==> old(size) < items.Length
      ensures ec != Success ==> chain == old(chain) && Contents() == old(Contents())
      ensures ec == Success ==>
                && Contents() == Inserted(old(Contents()), if it == NIL then 0 else p + 1, elem)
                && |chain| == |old(chain)| + 1
                && chain[..(if it == NIL then 0 else p + 1)] == old(chain)[..(if it == NIL then 0 else p + 1)]
    {
      if it == NIL {
        ec := PushFront(elem);
        return;
      }
      ghost var before, was := items[..], bitmap.used[..];
      var idx := AllocNode();
      if idx.None? {
        return CannotPut;
      }
      size := size + 1;
      LinkAfter(it, idx.value, elem, p);
      Settle(before, was, p + 1, idx.value, elem);
      ec := Success;
    }

    /** The pointer updates of PutAfter. */
    method LinkAfter(it: int, node: nat, elem: T, ghost p: nat)
      requires Linked(items[..], chain) && forall k :: 0 <= k < |chain| ==> chain[k] < items.Length
      requires p < |chain| && it == chain[p] && node !in chain && node < items.Length
      modifies this`tail, items
      ensures LinksIn(old(items[..]), items[..], chain, p + 1, node, elem)
      ensures tail == if p + 1 == |chain| then node else old(tail)
    {
      assert NodeOk(items[..], chain, p);
      if p + 1 < |chain| {
        assert NodeOk(items[..], chain, p + 1);
      }
      var nextIt := items[it].next;
      if nextIt == NIL {
        items[node] := Item(elem, it, NIL);
        items[it] := items[it].(next := node);
        tail := node;
      } else {
        items[node] := Item(elem, it, nextIt);
        items[nextIt] := items[nextIt].(prev := node);
        items[it] := items[it].(next := node);
      }
    }

    method PutBefore(it: int, elem: T, ghost p: nat) returns (ec: Status)
      requires Valid()
      requires if it == NIL then chain == [] else p < |chain| && it == chain[p]
      modifies this, items, bitmap.used
      ensures Valid()
      ensures ec == Success <==> old(size) < items.Length
      ensures ec != Success ==> chain == old(chain) && Contents() == old(Contents())
      ensures ec == Success ==>
                && Contents() == Inserted(old(Contents()), if it == NIL then 0 else p, elem)
                && |chain| == |old(chain)| + 1
                && chain[..(if it == NIL then 0 else p)] == old(chain)[..(if it == NIL then 0 else p)]
    {
      if it == NIL {
        ec := PushFront(elem);
        return;
      }
      ghost var before, was := items[..], bitmap.used[..];
      var idx := AllocNode();
      if idx.None? {
        return CannotPut;
      }
      var node := idx.value;
      assert NodeOk(before, chain, p);
      if p > 0 {
        assert NodeOk(before, chain, p - 1);
      }
      size := size + 1;
      var prevIt := items[it].prev;
      if prevIt == NIL {
        items[node] := Item(elem, NIL, it);
        items[it] := items[it].(prev := node);
        head := node;
      } else {
        items[node] := Item(elem, prevIt, it);
        items[it] := items[it].(prev := node);
        items[prevIt] := items[prevIt].(next := node);
      }
      Settle(before, was, p, node, elem);
      ec := Success;
    }

    /** The lowest taken node that holds the element, if any. */
    method Find(elem: T) returns (idx: Option<nat>)
      requires Valid()
      ensures idx.None? <==> elem !in Contents()
      ensures idx.Some? ==> IsLowest(idx.value, elem)
    {
      var i := 0;
      while i < items.Length
        invariant i <= items.Length
        invariant forall j :: 0 <= j < i ==> !(bitmap.used[j] && items[j].elem == elem)
      {
        if !bitmap.IsFree(i) && items[i].elem == elem {
          ghost var k :| 0 <= k < |chain| && chain[k] == i;
          assert Contents()[k] == elem;
          return Some(i);
        }
        i := i + 1;
      }
      forall k | 0 <= k < |chain|
        ensures Contents()[k] != elem
      {
        assert bitmap.used[chain[k]];
      }
      return None;
    }

    ghost predicate IsLowest(idx: nat, elem: T)
      requires Valid()
      reads this, items, bitmap, bitmap.used
    {
      && idx in chain && items[idx].elem == elem
      && forall j :: 0 <= j < idx && j in chain ==> items[j].elem != elem
    }

    /** Deletes the element held by the lowest such node; without duplicates that is the element. */
    method Remove(elem: T) returns (ec: Status, ghost p: nat)
      requires Valid()
      modifies this, items, bitmap.used
      ensures Valid()
      ensures ec == (if elem in old(Contents()) then Success else CannotRemove)
      ensures ec != Success ==> chain == old(chain) && Contents() == old(Contents())
      ensures ec == Success ==>
                && p < |old(chain)| && old(IsLowest(chain[p], elem))
                && chain == Removed(old(chain), p)
                && Contents() == Removed(old(Contents()), p)
                && old(Contents())[p] == elem
    {
      var idx := Find(elem);
      p := 0;
      if idx.None? {
        return CannotRemove, 0;
      }
      p :| 0 <= p < |chain| && chain[p] == idx.value;
      Unlink(idx.value, p);
      ec := Success;
    }

    /** The body of the removal loop, for the node found. */
    method Unlink(idx: nat, ghost p: nat)
      requires Valid() && p < |chain| && idx == chain[p]
      modifies this, items, bitmap.used
      ensures Valid()
      ensures chain == Removed(old(chain), p) && Contents() == Removed(old(Contents()), p)
    {
      ghost var before := items[..];
      CutOut(idx, p);
      bitmap.Free(idx);
      size := size - 1;
      LinkedOut(before, items[..], chain, p);
      RemovedMembers(chain, p);
      chain := Removed(chain, p);
    }

    /** The pointer updates of the removal. */
    method CutOut(idx: nat, ghost p: nat)
      requires Valid() && p < |chain| && idx == chain[p]
      modifies this`head, this`tail, items
      ensures LinksOut(old(items[..]), items[..], chain, p)
      ensures head == if p > 0 then chain[0] else After(chain, 0)
      ensures tail == if p + 1 < |chain| then chain[|chain| - 1] else Before(chain, p)
    {
      assert NodeOk(items[..], chain, p);
      if p > 0 {
        assert NodeOk(items[..], chain, p - 1);
      }
      if p + 1 < |chain| {
        assert NodeOk(items[..], chain, p + 1);
      }
      var prev, next := items[idx].prev, items[idx].next;
      if idx == head {
        head := next;
        if head != NIL {
          items[head] := items[head].(prev := NIL);
        }
      }
      if idx == tail {
        tail := prev;
        if tail != NIL {
          items[tail] := items[tail].(next := NIL);
        }
      }
      if prev != NIL && next != NIL {
        items[prev] := items[prev].(next := next);
        items[next] := items[next].(prev := prev);
      }
    }
  }

  // ---------------------------------------------------------------- chains and the bitmap

  /** A chain of distinct nodes is no longer than the array. */
  lemma {:induction false} ChainFits(chain: seq<nat>, n: nat)
    requires Distinct(chain) && forall k :: 0 <= k < |chain| ==> chain[k] < n
    ensures |chain| <= n
  {
    if chain != [] {
      assert chain[0] < n;
      if n - 1 in chain {
        var p :| 0 <= p < |chain| && chain[p] == n - 1;
        RemovedMembers(chain, p);
        forall k | 0 <= k < |chain| - 1
          ensures Removed(chain, p)[k] < n - 1
        {
          assert Removed(chain, p)[k] in Removed(chain, p);
        }
        ChainFits(Removed(chain, p), n - 1);
      } else {
        forall k | 0 <= k < |chain|
          ensures chain[k] < n - 1
        {
          assert chain[k] in chain;
        }
        ChainFits(chain, n - 1);
      }
    }
  }

  lemma {:induction false} FullChain(chain: seq<nat>, n: nat)
    requires Distinct(chain) && (forall k :: 0 <= k < |chain| ==> chain[k] < n)
    requires forall i: nat :: i < n ==> i in chain
    ensures |chain| == n
  {
    if n > 0 {
      assert n - 1 in chain;
      var p :| 0 <= p < |chain| && chain[p] == n - 1;
      RemovedMembers(chain, p);
      forall k | 0 <= k < |chain| - 1
        ensures Removed(chain, p)[k] < n - 1
      {
        assert Removed(chain, p)[k] in Removed(chain, p);
      }
      FullChain(Removed(chain, p), n - 1);
    }
  }

  lemma ChainMisses(chain: seq<nat>, n: nat, idx: nat)
    requires Distinct(chain) && (forall k :: 0 <= k < |chain| ==> chain[k] < n)
    requires idx < n && idx !in chain
    ensures |chain| < n
  {
    ChainFits(chain + [idx], n);
  }

  lemma RemovedMembers(chain: seq<nat>, p: nat)
    requires Distinct(chain) && p < |chain|
    ensures Distinct(Removed(chain, p))
    ensures forall i: nat :: i in Removed(chain, p) <==> i in chain && i != chain[p]
  {
    forall i: nat | i in chain && i != chain[p]
      ensures i in Removed(chain, p)
    {
      var k :| 0 <= k < |chain| && chain[k] == i;
      assert Removed(chain, p)[if k < p then k else k - 1] == i;
    }
  }
}
