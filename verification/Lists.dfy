/** Doubly linked chains threaded through an array of nodes, shared by both list classes. */
module Links {
  const NIL: int := -1

  /** `prev` and `next` are node indices or NIL. */
  datatype Item<T> = Item(elem: T, prev: int, next: int)

  predicate Distinct(chain: seq<nat>) {
    forall i, j :: 0 <= i < j < |chain| ==> chain[i] != chain[j]
  }

  function Before(chain: seq<nat>, k: nat): int
    requires k <= |chain|
  {
    if k == 0 then NIL else chain[k - 1]
  }

  function After(chain: seq<nat>, k: int): int
    requires -1 <= k < |chain|
  {
    if k + 1 == |chain| then NIL else chain[k + 1]
  }

  ghost predicate NodeOk<T>(items: seq<Item<T>>, chain: seq<nat>, k: nat)
    requires k < |chain|
  {
    && chain[k] < |items|
    && items[chain[k]].prev == Before(chain, k)
    && items[chain[k]].next == After(chain, k)
  }

  /** The nodes of the chain refer to their neighbours in both directions. */
  ghost predicate Linked<T>(items: seq<Item<T>>, chain: seq<nat>) {
    Distinct(chain) && forall k :: 0 <= k < |chain| ==> NodeOk(items, chain, k)
  }

  ghost function Elements<T>(items: seq<Item<T>>, chain: seq<nat>): (elements: seq<T>)
    requires Linked(items, chain)
    ensures |elements| == |chain|
  {
    seq(|chain|, k requires 0 <= k < |chain| && NodeOk(items, chain, k) => items[chain[k]].elem)
  }

  ghost function Inserted<A>(s: seq<A>, p: nat, a: A): seq<A>
    requires p <= |s|
  {
    s[..p] + [a] + s[p..]
  }

  ghost function Removed<A>(s: seq<A>, p: nat): seq<A>
    requires p < |s|
  {
    s[..p] + s[p + 1..]
  }

  /** `after` differs from `before` by linking node `idx` in at place p. */
  ghost predicate LinksIn<T>(before: seq<Item<T>>, after: seq<Item<T>>, chain: seq<nat>, p: nat, idx: nat, elem: T)
    requires Linked(before, chain) && p <= |chain|
  {
    && |after| == |before| && idx < |before|
    && after[idx] == Item(elem, Before(chain, p), After(chain, p - 1))
    && (p > 0 ==> NodeOk(before, chain, p - 1) && after[chain[p - 1]] == before[chain[p - 1]].(next := idx))
    && (p < |chain| ==> NodeOk(before, chain, p) && after[chain[p]] == before[chain[p]].(prev := idx))
    && forall i :: 0 <= i < |before| && i != idx && i != Before(chain, p) && i != After(chain, p - 1) ==>
         after[i] == before[i]
  }

  lemma LinkedIn<T>(before: seq<Item<T>>, after: seq<Item<T>>, chain: seq<nat>, p: nat, idx: nat, elem: T)
    requires Linked(before, chain) && p <= |chain| && idx !in chain
    requires LinksIn(before, after, chain, p, idx, elem)
    ensures Linked(after, Inserted(chain, p, idx))
    ensures Elements(after, Inserted(chain, p, idx)) == Inserted(Elements(before, chain), p, elem)
  {
    var longer := Inserted(chain, p, idx);
    forall k | 0 <= k < |longer|
      ensures NodeOk(after, longer, k)
      ensures after[longer[k]].elem == Inserted(Elements(before, chain), p, elem)[k]
    {
      InsertedNode(before, after, chain, p, idx, elem, k);
    }
  }

  lemma InsertedNode<T>(before: seq<Item<T>>, after: seq<Item<T>>, chain: seq<nat>, p: nat, idx: nat, elem: T, k: nat)
    requires Linked(before, chain) && p <= |chain| && idx !in chain && k <= |chain|
    requires LinksIn(before, after, chain, p, idx, elem)
    ensures NodeOk(after, Inserted(chain, p, idx), k)
    ensures after[Inserted(chain, p, idx)[k]].elem == Inserted(Elements(before, chain), p, elem)[k]
  {
    if k != p {
      var was := if k < p then k else k - 1;
      assert NodeOk(before, chain, was);
      assert Inserted(chain, p, idx)[k] == chain[was];
    }
  }

  /** `after` differs from `before` by closing the gap at place p. */
  ghost predicate LinksOut<T>(before: seq<Item<T>>, after: seq<Item<T>>, chain: seq<nat>, p: nat)
    requires Linked(before, chain) && p < |chain|
  {
    && |after| == |before|
    && (p > 0 ==> NodeOk(before, chain, p - 1) && after[chain[p - 1]] == before[chain[p - 1]].(next := After(chain, p)))
    && (p + 1 < |chain| ==>
          && NodeOk(before, chain, p + 1)
          && after[chain[p + 1]] == before[chain[p + 1]].(prev := Before(chain, p)))
    && forall i :: 0 <= i < |before| && i != Before(chain, p) && i != After(chain, p) ==> after[i] == before[i]
  }

  lemma LinkedOut<T>(before: seq<Item<T>>, after: seq<Item<T>>, chain: seq<nat>, p: nat)
    requires Linked(before, chain) && p < |chain| && LinksOut(before, after, chain, p)
    ensures Linked(after, Removed(chain, p))
    ensures Elements(after, Removed(chain, p)) == Removed(Elements(before, chain), p)
  {
    var shorter := Removed(chain, p);
    forall k | 0 <= k < |shorter|
      ensures NodeOk(after, shorter, k)
      ensures after[shorter[k]].elem == Removed(Elements(before, chain), p)[k]
    {
      RemainingNode(before, after, chain, p, k);
    }
  }

  lemma RemainingNode<T>(before: seq<Item<T>>, after: seq<Item<T>>, chain: seq<nat>, p: nat, k: nat)
    requires Linked(before, chain) && p < |chain| && LinksOut(before, after, chain, p) && k + 1 < |chain|
    ensures NodeOk(after, Removed(chain, p), k)
    ensures after[Removed(chain, p)[k]].elem == Removed(Elements(before, chain), p)[k]
  {
    var was := if k < p then k else k + 1;
    assert NodeOk(before, chain, was);
    assert Removed(chain, p)[k] == chain[was];
  }

  // ---------------------------------------------------------------- walking a chain

  /** The node reached from `from` after a number of next links; NIL is final. */
  function Forward<T>(items: seq<Item<T>>, from: int, steps: nat): int
    decreases steps
  {
    if steps == 0 || !(0 <= from < |items|) then from else Forward(items, items[from].next, steps - 1)
  }

  function Backward<T>(items: seq<Item<T>>, from: int, steps: nat): int
    decreases steps
  {
    if steps == 0 || !(0 <= from < |items|) then from else Backward(items, items[from].prev, steps - 1)
  }

  /** Following next from the head visits the chain in order and ends in NIL after its last node;
      following prev from any node goes back to the head. So neither direction has a cycle. */
  lemma {:induction false} WalkVisitsChain<T>(items: seq<Item<T>>, chain: seq<nat>, start: nat, steps: nat)
    requires Linked(items, chain) && start < |chain| && start + steps <= |chain|
    ensures Forward(items, chain[start], steps) == After(chain, start + steps - 1)
    decreases steps
  {
    assert NodeOk(items, chain, start);
    if steps > 0 {
      if start + 1 < |chain| {
        WalkVisitsChain(items, chain, start + 1, steps - 1);
      } else {
        assert steps == 1 && Forward(items, NIL, 0) == NIL;
      }
    }
  }

  lemma {:induction false} WalkReturns<T>(items: seq<Item<T>>, chain: seq<nat>, start: nat, steps: nat)
    requires Linked(items, chain) && start < |chain| && steps <= start + 1
    ensures Backward(items, chain[start], steps) == Before(chain, start + 1 - steps)
    decreases steps
  {
    assert NodeOk(items, chain, start);
    if steps > 0 {
      if start > 0 {
        WalkReturns(items, chain, start - 1, steps - 1);
      } else {
        assert steps == 1 && Backward(items, NIL, 0) == NIL;
      }
    }
  }

  /** The links determine the sequence: two chains from the same head through the same nodes agree. */
  lemma {:induction false} ChainIsUnique<T>(items: seq<Item<T>>, a: seq<nat>, b: seq<nat>, k: nat)
    requires Linked(items, a) && Linked(items, b) && a != [] && b != [] && a[0] == b[0]
    requires k < |a|
    ensures k < |b| && a[k] == b[k]
    ensures k + 1 == |a| <==> k + 1 == |b|
  {
    if k > 0 {
      ChainIsUnique(items, a, b, k - 1);
      assert NodeOk(items, a, k - 1) && NodeOk(items, b, k - 1);
    }
    assert NodeOk(items, a, k) && NodeOk(items, b, k);
  }
}
