/**
 Per-pin lists of module instances. Every list starts with the pin's own head node; all other nodes
 come from one pool of slots that the pins share.
 */
module FmtModulesLists {
  import opened Words
  import opened Links

  /** The null module instance. */
  const NULL: int := 0

  const POOL: nat := 16

  datatype Status = Success | NullPointer | InvalidParam | InvalidModule | InvalidRequest | OutOfResources

  lemma LinkedFrame(before: seq<Item<int>>, after: seq<Item<int>>, chain: seq<nat>)
    requires Linked(before, chain) && |before| <= |after|
    requires forall k :: 0 <= k < |chain| && chain[k] < |before| ==> after[chain[k]] == before[chain[k]]
    ensures Linked(after, chain) && Elements(after, chain) == Elements(before, chain)
  {
    forall k | 0 <= k < |chain|
      ensures NodeOk(after, chain, k) && NodeOk(before, chain, k)
      ensures after[chain[k]] == before[chain[k]]
    {
      assert NodeOk(before, chain, k);
    }
  }

  /** The nodes after the head of a list was pushed to its back. */
  ghost function Relisted<T>(items: seq<Item<T>>, chain: seq<nat>): seq<Item<T>>
    requires Linked(items, chain) && chain != []
  {
    assert NodeOk(items, chain, 0) && NodeOk(items, chain, |chain| - 1);
    var tail := chain[|chain| - 1];
    var linked := items[tail := items[tail].(next := chain[0])];
    linked[chain[0] := linked[chain[0]].(prev := tail, next := NIL)]
  }

  /** A list over nodes that belong to somebody else. */
  class BiList {
    var size: nat
    var head: int
    var tail: int
    ghost var chain: seq<nat>

    ghost predicate Valid(items: seq<Item<int>>)
      reads this
    {
      Linked(items, chain) && Ends()
    }

    ghost predicate Ends()
      reads this
    {
      && size == |chain|
      && head == (if chain == [] then NIL else chain[0])
      && tail == (if chain == [] then NIL else chain[|chain| - 1])
    }

    constructor ()
      ensures size == 0 && head == NIL && tail == NIL && chain == []
    {
      size, head, tail, chain := 0, NIL, NIL, [];
    }

    /** Appends a node. The head of the list is not refused: the list then ends at its own head. */
    method PushBack(items: array<Item<int>>, item: nat)
      requires Valid(items[..]) && item < items.Length && (item in chain ==> item == chain[0])
      modifies this, items
      ensures size == old(size) + 1 && tail == item
      ensures item !in old(chain) ==> Valid(items[..]) && chain == old(chain) + [item]
      ensures item !in old(chain) ==>
                Elements(items[..], chain) == old(Elements(items[..], chain)) + [old(items[item].elem)]
      ensures item in old(chain) ==> head == item && items[..] == Relisted(old(items[..]), old(chain))
      ensures forall i :: 0 <= i < items.Length ==> items[i].elem == old(items[i].elem)
      ensures forall i: nat :: i < items.Length && i !in old(chain) && i != item ==> items[i] == old(items[i])
    {
      ghost var before := items[..];
      if chain != [] {
        assert NodeOk(before, chain, |chain| - 1);
      }
      if head == NIL {
        head := item;
        items[item] := items[item].(prev := NIL, next := NIL);
      }
      if tail != NIL {
        items[tail] := items[tail].(next := item);
        items[item] := items[item].(prev := tail, next := NIL);
      }
      tail := item;
      size := size + 1;
      if item !in chain {
        LinkedIn(before, items[..], chain, |chain|, item, before[item].elem);
        chain := Inserted(chain, |chain|, item);
        assert chain == old(chain) + [item];
      }
    }

    /** Forgets the list and clears all its nodes. */
    method Reset(items: array<Item<int>>)
      requires Valid(items[..])
      modifies this, items
      ensures Valid(items[..]) && chain == []
      ensures forall i: nat :: i < items.Length ==>
                items[i] == if i in old(chain) then Item(NULL, NIL, NIL) else old(items[i])
    {
      ghost var k := 0;
      ghost var before := items[..];
      var item := head;
      while item != NIL
        invariant chain == old(chain) && 0 <= k <= |chain| && |before| == items.Length
        invariant item == if k == |chain| then NIL else chain[k]
        invariant forall i: nat :: i < items.Length ==>
                    items[i] == if i in chain[..k] then Item(NULL, NIL, NIL) else before[i]
        decreases |chain| - k
      {
        assert NodeOk(before, chain, k);
        assert chain[k] !in chain[..k];
        assert chain[..k + 1] == chain[..k] + [chain[k]];
        var nextItem := items[item].next;
        items[item] := Item(NULL, NIL, NIL);
        item := nextItem;
        k := k + 1;
      }
      assert chain[..k] == chain;
      size, head, tail, chain := 0, NIL, NIL, [];
    }
  }

  // ---------------------------------------------------------------- lists over a shared pool

  /** Chain p starts with the head node of pin p; its other nodes are pool slots. */
  ghost predicate ChainOk(items: seq<Item<int>>, chains: seq<seq<nat>>, p: nat)
    requires p < |chains|
  {
    && Linked(items, chains[p])
    && (chains[p] != [] ==> chains[p][0] == POOL + p)
    && forall k :: 1 <= k < |chains[p]| ==> chains[p][k] < POOL
  }

  /** A slot holds a module exactly when it is a node of the chain of its owner, and of no other. */
  ghost predicate SlotOk(items: seq<Item<int>>, chains: seq<seq<nat>>, owner: seq<int>, i: nat)
    requires i < POOL <= |items| && |owner| == POOL
  {
    && (items[i].elem != NULL <==> owner[i] != NIL)
    && (owner[i] != NIL ==> 0 <= owner[i] < |chains| && i in chains[owner[i]])
    && forall p :: 0 <= p < |chains| && i in chains[p] ==> owner[i] == p
  }

  ghost predicate Consistent(items: seq<Item<int>>, chains: seq<seq<nat>>, owner: seq<int>) {
    && |items| == POOL + |chains| && |owner| == POOL
    && (forall p :: 0 <= p < |chains| ==> ChainOk(items, chains, p))
    && (forall i :: 0 <= i < POOL ==> SlotOk(items, chains, owner, i))
    && (forall i, j :: 0 <= i < j < POOL && items[i].elem != NULL ==> items[i].elem != items[j].elem)
  }

  ghost predicate Holds(items: seq<Item<int>>, mi: int) {
    exists i :: 0 <= i < POOL && i < |items| && items[i].elem == mi
  }

  /** The modules with a slot are those before and the added ones. */
  ghost predicate HoldsAlso(before: seq<Item<int>>, after: seq<Item<int>>, added: seq<int>) {
    forall mi :: mi != NULL ==> (Holds(after, mi) <==> Holds(before, mi) || mi in added)
  }

  /** The lists of different pins share no node. */
  lemma ListsAreDisjoint(items: seq<Item<int>>, chains: seq<seq<nat>>, owner: seq<int>, p: nat, q: nat)
    requires Consistent(items, chains, owner) && p < |chains| && q < |chains| && p != q
    ensures forall i: nat :: i in chains[p] ==> i !in chains[q]
  {
    assert ChainOk(items, chains, p) && ChainOk(items, chains, q);
    forall i: nat | i in chains[p]
      ensures i !in chains[q]
    {
      if i < POOL {
        assert SlotOk(items, chains, owner, i);
      }
    }
  }

  /** The occupied slots are exactly the nodes of the lists other than their heads. */
  lemma OccupiedSlots(items: seq<Item<int>>, chains: seq<seq<nat>>, owner: seq<int>, i: nat)
    requires Consistent(items, chains, owner) && i < POOL
    ensures items[i].elem != NULL <==>
              exists p, k :: 0 <= p < |chains| && 1 <= k < |chains[p]| && chains[p][k] == i
  {
    assert SlotOk(items, chains, owner, i);
    if items[i].elem != NULL {
      var p := owner[i];
      assert ChainOk(items, chains, p);
      var k :| 0 <= k < |chains[p]| && chains[p][k] == i;
      assert k != 0;
    }
  }

  /** Appending a slot to the chain of a pin. */
  lemma SlotAppended(items: seq<Item<int>>, after: seq<Item<int>>, chains: seq<seq<nat>>, owner: seq<int>,
                     pin: nat, slot: nat, mi: int)
    requires Consistent(items, chains, owner) && pin < |chains| && chains[pin] != []
    requires slot < POOL && items[slot].elem == NULL && mi != NULL && !Holds(items, mi)
    requires |after| == |items| && Linked(after, chains[pin] + [slot])
    requires forall i: nat :: i < |items| ==> after[i].elem == if i == slot then mi else items[i].elem
    requires forall i: nat :: i < |items| && i != slot && i !in chains[pin] ==> after[i] == items[i]
    ensures Consistent(after, chains[pin := chains[pin] + [slot]], owner[slot := pin])
  {
    var longer, owned := chains[pin := chains[pin] + [slot]], owner[slot := pin];
    assert SlotOk(items, chains, owner, slot);
    forall p | 0 <= p < |longer|
      ensures ChainOk(after, longer, p)
    {
      assert ChainOk(items, chains, p);
      if p != pin {
        ListsAreDisjoint(items, chains, owner, p, pin);
        LinkedFrame(items, after, chains[p]);
      }
    }
    forall i | 0 <= i < POOL
      ensures SlotOk(after, longer, owned, i)
    {
      assert SlotOk(items, chains, owner, i);
    }
  }

  /** Filling a free slot leaves every chain as it was. */
  lemma SlotFilled(items: seq<Item<int>>, after: seq<Item<int>>, chains: seq<seq<nat>>, owner: seq<int>,
                   pin: nat, slot: nat, mi: int)
    requires Consistent(items, chains, owner) && pin < |chains|
    requires slot < POOL && items[slot].elem == NULL && after == items[slot := items[slot].(elem := mi)]
    ensures slot !in chains[pin]
    ensures Linked(items, chains[pin]) && Linked(after, chains[pin])
    ensures Elements(after, chains[pin]) == Elements(items, chains[pin])
  {
    assert SlotOk(items, chains, owner, slot) && ChainOk(items, chains, pin);
    LinkedFrame(items, after, chains[pin]);
  }

  lemma HeadAppended(items: seq<Item<int>>, after: seq<Item<int>>, chains: seq<seq<nat>>, owner: seq<int>, pin: nat)
    requires Consistent(items, chains, owner) && pin < |chains| && chains[pin] == []
    requires |after| == |items| && Linked(after, [POOL + pin])
    requires forall i: nat :: i < |items| && i != POOL + pin ==> after[i] == items[i]
    ensures Consistent(after, chains[pin := [POOL + pin]], owner)
  {
    var longer := chains[pin := [POOL + pin]];
    forall p | 0 <= p < |longer|
      ensures ChainOk(after, longer, p)
    {
      assert ChainOk(items, chains, p);
      if p != pin {
        LinkedFrame(items, after, chains[p]);
      }
    }
    forall i | 0 <= i < POOL
      ensures SlotOk(after, longer, owner, i)
    {
      assert SlotOk(items, chains, owner, i);
    }
  }

  /** The head of a pin pushed to a list that was not cleared: from the head no other node is reached
      any more, and the slots of the list stay taken although no list has them. */
  lemma RelistingLosesSlots(items: seq<Item<int>>, after: seq<Item<int>>, chains: seq<seq<nat>>, owner: seq<int>,
                            pin: nat, k: nat)
    requires Consistent(items, chains, owner) && pin < |chains| && 1 <= k < |chains[pin]|
    requires ChainOk(items, chains, pin) && after == Relisted(items, chains[pin])
    ensures chains[pin][0] == POOL + pin && Forward(after, POOL + pin, 1) == NIL
    ensures var slot := chains[pin][k];
            && slot < POOL && after[slot].elem == items[slot].elem != NULL
            && forall p :: 0 <= p < |chains| && p != pin ==> slot !in chains[p] && ChainOk(after, chains, p)
  {
    assert NodeOk(items, chains[pin], 0) && NodeOk(items, chains[pin], |chains[pin]| - 1);
    assert NodeOk(items, chains[pin], k) && SlotOk(items, chains, owner, chains[pin][k]);
    assert forall i: nat :: i < |items| && i !in chains[pin] ==> after[i] == items[i];
    assert Forward(after, after[POOL + pin].next, 0) == NIL;
    forall p | 0 <= p < |chains| && p != pin
      ensures chains[pin][k] !in chains[p] && ChainOk(after, chains, p)
    {
      assert ChainOk(items, chains, p);
      ListsAreDisjoint(items, chains, owner, p, pin);
      forall j | 0 <= j < |chains[p]|
        ensures chains[p][j] !in chains[pin]
      {
        assert chains[p][j] in chains[p];
      }
      LinkedFrame(items, after, chains[p]);
    }
  }

  /** The slots a pin gives back are the slots it owned. */
  ghost function Disowned(owner: seq<int>, pin: nat): seq<int> {
    seq(|owner|, i requires 0 <= i < |owner| => if owner[i] == pin then NIL else owner[i])
  }

  lemma ListCleared(items: seq<Item<int>>, after: seq<Item<int>>, chains: seq<seq<nat>>, owner: seq<int>, pin: nat)
    requires Consistent(items, chains, owner) && pin < |chains|
    requires |after| == |items|
    requires forall i: nat :: i < |items| ==> after[i] == if i in chains[pin] then Item(NULL, NIL, NIL) else items[i]
    ensures Consistent(after, chains[pin := []], Disowned(owner, pin))
    ensures forall i: nat :: i < POOL ==>
              after[i].elem == if owner[i] == pin then NULL else items[i].elem
  {
    var shorter, owned := chains[pin := []], Disowned(owner, pin);
    forall p | 0 <= p < |shorter|
      ensures ChainOk(after, shorter, p)
    {
      assert ChainOk(items, chains, p);
      if p != pin {
        ListsAreDisjoint(items, chains, owner, p, pin);
        LinkedFrame(items, after, chains[p]);
      }
    }
    forall i: nat | i < POOL
      ensures SlotOk(after, shorter, owned, i)
      ensures after[i].elem == if owner[i] == pin then NULL else items[i].elem
    {
      assert SlotOk(items, chains, owner, i);
    }
  }

  lemma SameModules(before: seq<Item<int>>, after: seq<Item<int>>)
    requires |before| == |after| && forall i :: 0 <= i < POOL && i < |before| ==> after[i].elem == before[i].elem
    ensures forall mi :: Holds(after, mi) <==> Holds(before, mi)
  {
    forall mi
      ensures Holds(after, mi) <==> Holds(before, mi)
    {
      if Holds(before, mi) {
        var i :| 0 <= i < POOL && i < |before| && before[i].elem == mi;
        assert after[i].elem == mi;
      }
    }
  }

  /** Filling a free slot adds one module to those with a slot. */
  lemma FilledHolds(before: seq<Item<int>>, after: seq<Item<int>>, slot: nat, mi: int)
    requires |before| == |after| && slot < POOL && slot < |before| && before[slot].elem == NULL
    requires forall i :: 0 <= i < |before| ==> after[i].elem == if i == slot then mi else before[i].elem
    ensures HoldsAlso(before, after, [mi])
  {
    assert Holds(after, mi);
  }

  lemma GrownPrefix(listed: seq<int>, mods: seq<int>, i: nat)
    requires i < |mods|
    ensures listed + mods[..i + 1] == listed + mods[..i] + [mods[i]]
  {
    assert mods[..i + 1] == mods[..i] + [mods[i]];
  }

  lemma HoldsMore(first: seq<Item<int>>, before: seq<Item<int>>, after: seq<Item<int>>,
                  mods: seq<int>, i: nat, more: bool)
    requires i < |mods| && HoldsAlso(first, before, mods[..i])
    requires HoldsAlso(before, after, if more then [mods[i]] else [])
    ensures HoldsAlso(first, after, mods[..if more then i + 1 else i])
    ensures mods[i] != NULL ==> (Holds(before, mods[i]) <==> Holds(first, mods[i]) || mods[i] in mods[..i])
  {
    assert mods[..i + 1] == mods[..i] + [mods[i]];
  }

  lemma EmptyConsistent(items: seq<Item<int>>, chains: seq<seq<nat>>, owner: seq<int>)
    requires |items| == POOL + |chains| && |owner| == POOL
    requires forall i :: 0 <= i < |items| ==> items[i] == Item(NULL, NIL, NIL)
    requires forall p :: 0 <= p < |chains| ==> chains[p] == []
    requires forall i :: 0 <= i < POOL ==> owner[i] == NIL
    ensures Consistent(items, chains, owner)
    ensures !(exists mi :: mi != NULL && Holds(items, mi))
  {
  }

  // ---------------------------------------------------------------- the pins

  class FastModeTaskModulesList {
    const pins: nat
    const self: int
    /** The pool slots, followed by one head node per pin. */
    const items: array<Item<int>>
    const lists: seq<BiList>
    /** The pin a slot belongs to, or NIL. */
    ghost var owner: seq<int>

    ghost function Chains(): seq<seq<nat>>
      reads lists
    {
      seq(|lists|, p requires 0 <= p < |lists| reads lists => lists[p].chain)
    }

    /** One list object per pin, each with its ends where its chain says. */
    ghost predicate Separate()
      reads this, lists
    {
      && |lists| == pins
      && (forall p, q :: 0 <= p < q < pins ==> lists[p] != lists[q])
      && (forall p :: 0 <= p < pins ==> lists[p].Ends())
    }

    ghost predicate Valid()
      reads this, items, lists
    {
      && Separate()
      && Consistent(items[..], Chains(), owner)
    }

    /** The modules listed for a pin, its own module first. */
    ghost function Modules(p: nat): seq<int>
      requires Valid() && p < pins
      reads this, items, lists
    {
      assert ChainOk(items[..], Chains(), p);
      Elements(items[..], lists[p].chain)
    }

    constructor (pins: nat, self: int)
      ensures Valid() && this.pins == pins && this.self == self
      ensures forall p :: 0 <= p < pins ==> lists[p].chain == []
      ensures !(exists mi :: mi != NULL && Holds(items[..], mi))
    {
      this.pins := pins;
      this.self := self;
      var nodes := new Item<int>[POOL + pins](_ => Item(NULL, NIL, NIL));
      items := nodes;
      owner := seq(POOL, _ => NIL);
      var made: seq<BiList> := [];
      while |made| < pins
        invariant |made| <= pins
        invariant forall i :: 0 <= i < nodes.Length ==> nodes[i] == Item(NULL, NIL, NIL)
        invariant forall p :: 0 <= p < |made| ==> fresh(made[p]) && made[p].chain == [] && made[p].Ends()
        invariant forall p, q :: 0 <= p < q < |made| ==> made[p] != made[q]
      {
        var list := new BiList();
        made := made + [list];
      }
      lists := made;
      new;
      EmptyConsistent(items[..], Chains(), owner);
    }

    /** Takes a free slot for a module that has none yet. */
    method AllocFmtModuleListItem(mi: int) returns (ec: Status, slot: nat)
      requires items.Length >= POOL
      modifies items
      ensures ec == (if old(Holds(items[..], mi)) then InvalidRequest
                     else if old(Holds(items[..], NULL)) then Success else OutOfResources)
      ensures ec != Success ==> items[..] == old(items[..])
      ensures ec == Success ==>
                && slot < POOL && old(items[slot].elem) == NULL
                && (forall j :: 0 <= j < slot ==> old(items[j].elem) != NULL)
                && items[..] == old(items[..])[slot := old(items[slot]).(elem := mi)]
    {
      slot := 0;
      var i := 0;
      while i < POOL
        invariant i <= POOL && forall j :: 0 <= j < i ==> items[j].elem != mi
      {
        if items[i].elem == mi {
          return InvalidRequest, 0;
        }
        i := i + 1;
      }
      i := 0;
      while i < POOL
        invariant i <= POOL && items[..] == old(items[..])
        invariant forall j :: 0 <= j < i ==> items[j].elem != NULL
      {
        if items[i].elem == NULL {
          items[i] := items[i].(elem := mi);
          return Success, i;
        }
        i := i + 1;
      }
      return OutOfResources, 0;
    }

    /** The other pins kept their lists, with the same modules in the same nodes. */
    twostate predicate OthersKept(pin: nat)
      requires old(Valid()) && Valid()
      reads this, items, lists
    {
      forall p :: 0 <= p < pins && p != pin ==>
        lists[p].chain == old(lists[p].chain) && Modules(p) == old(Modules(p))
    }

    twostate lemma KeepOthers(pin: nat)
      requires old(Valid()) && Valid() && pin < pins
      requires forall p :: 0 <= p < pins && p != pin ==> lists[p].chain == old(lists[p].chain)
      requires forall i: nat :: i < items.Length && i !in lists[pin].chain && i !in old(lists[pin].chain) ==>
                 items[i] == old(items[i])
      ensures OthersKept(pin)
    {
      forall p | 0 <= p < pins && p != pin
        ensures Modules(p) == old(Modules(p))
      {
        ListsAreDisjoint(old(items[..]), old(Chains()), old(owner), p, pin);
        ListsAreDisjoint(items[..], Chains(), owner, p, pin);
        assert ChainOk(old(items[..]), old(Chains()), p);
        forall k | 0 <= k < |lists[p].chain|
          ensures lists[p].chain[k] !in lists[pin].chain && lists[p].chain[k] !in old(lists[pin].chain)
        {
          assert lists[p].chain[k] in Chains()[p] && lists[p].chain[k] in old(Chains())[p];
          assert Chains()[pin] == lists[pin].chain && old(Chains())[pin] == old(lists[pin].chain);
        }
        LinkedFrame(old(items[..]), items[..], lists[p].chain);
      }
    }

    /** The module itself becomes the first node of a cleared list. */
    method StartList(pin: nat)
      requires Valid() && pin < pins && lists[pin].chain == []
      modifies this, items, lists[pin]
      ensures Valid() && Modules(pin) == [self] && lists[pin].chain == [POOL + pin]
      ensures OthersKept(pin) && owner == old(owner)
      ensures forall i :: 0 <= i < POOL ==> items[i].elem == old(items[i].elem)
    {
      ghost var before, chains := items[..], Chains();
      items[POOL + pin] := items[POOL + pin].(elem := self);
      lists[pin].PushBack(items, POOL + pin);
      assert lists[pin].chain == [POOL + pin];
      assert Chains() == chains[pin := [POOL + pin]];
      HeadAppended(before, items[..], chains, owner, pin);
      KeepOthers(pin);
    }

    /** One round of the loop that fills a list. */
    method AddModule(pin: nat, mi: int) returns (ec: Status)
      requires Valid() && pin < pins && lists[pin].chain != []
      modifies this, items, lists[pin]
      ensures Valid() && OthersKept(pin) && lists[pin].chain != []
      ensures ec == (if mi == NULL then InvalidModule
                     else if old(Holds(items[..], mi)) then InvalidRequest
                     else if old(Holds(items[..], NULL)) then Success else OutOfResources)
      ensures ec == OutOfResources ==> !Holds(items[..], NULL)
      ensures Modules(pin) == if ec == Success then old(Modules(pin)) + [mi] else old(Modules(pin))
      ensures HoldsAlso(old(items[..]), items[..], if ec == Success then [mi] else [])
    {
      ghost var before, chains := items[..], Chains();
      if mi == NULL {
        return InvalidModule;
      }
      var slot;
      ec, slot := AllocFmtModuleListItem(mi);
      if ec != Success {
        return;
      }
      assert Chains() == chains;
      LinkSlot(pin, slot, mi, before);
      KeepOthers(pin);
      FilledHolds(before, items[..], slot, mi);
    }

    /** Appends the slot that was just filled to the list of the pin. */
    method LinkSlot(pin: nat, slot: nat, mi: int, ghost before: seq<Item<int>>)
      requires Separate() && pin < pins && lists[pin].chain != [] && slot < POOL
      requires Consistent(before, Chains(), owner) && before[slot].elem == NULL
      requires mi != NULL && !Holds(before, mi) && items[..] == before[slot := before[slot].(elem := mi)]
      modifies this`owner, items, lists[pin]
      ensures Valid() && lists[pin].chain == old(lists[pin].chain) + [slot]
      ensures forall p :: 0 <= p < pins && p != pin ==> lists[p].chain == old(lists[p].chain)
      ensures Linked(before, old(lists[pin].chain))
      ensures Modules(pin) == Elements(before, old(lists[pin].chain)) + [mi]
      ensures forall i :: 0 <= i < items.Length ==> items[i].elem == old(items[i].elem)
      ensures forall i: nat :: i < items.Length && i !in lists[pin].chain ==> items[i] == old(items[i])
    {
      ghost var chains := Chains();
      SlotFilled(before, items[..], chains, owner, pin, slot, mi);
      lists[pin].PushBack(items, slot);
      assert Chains() == chains[pin := chains[pin] + [slot]];
      SlotAppended(before, items[..], chains, owner, pin, slot, mi);
      owner := owner[slot := pin];
    }

    /** Fills a cleared list; an empty configuration leaves any list alone. The loop stops at the first
        module that does not exist, already has a slot, or finds the pool full; the modules added before
        that stay listed. */
    method PrepareFmtModulesList(pin: nat, config: Option<seq<int>>, wantsLast: bool)
      returns (ec: Status, last: int, ghost done: nat)
      requires Valid()
      requires config.Some? && config.value != [] && wantsLast && pin < pins ==> lists[pin].chain == []
      modifies this, items, lists
      ensures Valid() && (pin < pins ==> OthersKept(pin))
      ensures config.None? || !wantsLast ==> ec == NullPointer
      ensures config.Some? && wantsLast && pin >= pins ==> ec == InvalidParam
      ensures config.None? || !wantsLast || pin >= pins ==> items[..] == old(items[..]) && Chains() == old(Chains())
      ensures config.Some? && wantsLast && pin < pins ==>
                var mods := config.value;
                && done <= |mods|
                && Modules(pin) == (if mods == [] then old(Modules(pin)) else [self] + mods[..done])
                && (ec == Success <==> done == |mods|)
                && (ec == Success ==> last == if mods == [] then NULL else mods[|mods| - 1])
                && (ec != Success ==>
                      ec == if mods[done] == NULL then InvalidModule
                            else if mods[done] in mods[..done] || old(Holds(items[..], mods[done])) then InvalidRequest
                            else OutOfResources)
                && (ec == OutOfResources ==> !Holds(items[..], NULL))
                && HoldsAlso(old(items[..]), items[..], mods[..done])
    {
      done, last := 0, NULL;
      if config.None? || !wantsLast {
        return NullPointer, last, done;
      }
      if pin >= pins {
        return InvalidParam, last, done;
      }
      var mods := config.value;
      if mods == [] {
        return Success, last, done;
      }
      StartList(pin);
      SameModules(old(items[..]), items[..]);
      ec, last, done := FillList(pin, mods);
      assert mods[..|mods|] == mods;
    }

    /** The loop of Prepare over a list that holds the module itself. */
    method FillList(pin: nat, mods: seq<int>) returns (ec: Status, last: int, ghost done: nat)
      requires Valid() && pin < pins && lists[pin].chain != []
      modifies this, items, lists[pin]
      ensures Valid() && OthersKept(pin) && done <= |mods|
      ensures Modules(pin) == old(Modules(pin)) + mods[..done]
      ensures ec == Success <==> done == |mods|
      ensures ec == Success ==> last == if mods == [] then NULL else mods[|mods| - 1]
      ensures ec != Success ==>
                ec == if mods[done] == NULL then InvalidModule
                      else if mods[done] in mods[..done] || old(Holds(items[..], mods[done])) then InvalidRequest
                      else OutOfResources
      ensures ec == OutOfResources ==> !Holds(items[..], NULL)
      ensures HoldsAlso(old(items[..]), items[..], mods[..done])
    {
      last := NULL;
      var i := 0;
      while i < |mods|
        invariant Valid() && i <= |mods| && lists[pin].chain != []
        invariant OthersKept(pin)
        invariant Modules(pin) == old(Modules(pin)) + mods[..i]
        invariant last == if i == 0 then NULL else mods[i - 1]
        invariant HoldsAlso(old(items[..]), items[..], mods[..i])
      {
        last := mods[i];
        ec := AddNext(pin, mods, i, old(items[..]), old(Modules(pin)));
        if ec != Success {
          done := i;
          return;
        }
        i := i + 1;
      }
      ec, done := Success, |mods|;
    }

    /** The body of that loop: what is listed and has a slot, counted from the start of the loop. */
    method AddNext(pin: nat, mods: seq<int>, i: nat, ghost first: seq<Item<int>>, ghost listed: seq<int>)
      returns (ec: Status)
      requires Valid() && pin < pins && lists[pin].chain != [] && i < |mods|
      requires HoldsAlso(first, items[..], mods[..i]) && Modules(pin) == listed + mods[..i]
      modifies this, items, lists[pin]
      ensures Valid() && OthersKept(pin) && lists[pin].chain != []
      ensures HoldsAlso(first, items[..], mods[..if ec == Success then i + 1 else i])
      ensures Modules(pin) == listed + mods[..if ec == Success then i + 1 else i]
      ensures ec != Success ==>
                ec == if mods[i] == NULL then InvalidModule
                      else if mods[i] in mods[..i] || Holds(first, mods[i]) then InvalidRequest
                      else OutOfResources
      ensures ec == OutOfResources ==> !Holds(items[..], NULL)
    {
      ghost var soFar := items[..];
      GrownPrefix(listed, mods, i);
      ec := AddModule(pin, mods[i]);
      HoldsMore(first, soFar, items[..], mods, i, ec == Success);
    }

    /** Frees exactly the slots of the pin and empties its list. */
    method ClearFmtModulesList(pin: nat)
      requires Valid() && pin < pins
      modifies this, items, lists[pin]
      ensures Valid() && Modules(pin) == [] && lists[pin].chain == [] && OthersKept(pin)
      ensures forall i :: 0 <= i < POOL ==>
                items[i].elem == if old(owner[i]) == pin then NULL else old(items[i].elem)
      ensures forall i :: 0 <= i < POOL ==> (old(owner[i]) == pin <==> i in old(lists[pin].chain))
    {
      ghost var before, chains := items[..], Chains();
      assert ChainOk(before, chains, pin);
      lists[pin].Reset(items);
      assert Chains() == chains[pin := []];
      ListCleared(before, items[..], chains, owner, pin);
      forall i | 0 <= i < POOL
        ensures owner[i] == pin <==> i in chains[pin]
      {
        assert SlotOk(before, chains, owner, i);
      }
      owner := Disowned(owner, pin);
      KeepOthers(pin);
    }

    /** The module at the tail of a list. */
    method LastListModule(pin: nat) returns (mi: int)
      requires Valid() && pin < pins
      ensures mi == if Modules(pin) == [] then NULL else Modules(pin)[|Modules(pin)| - 1]
    {
      assert ChainOk(items[..], Chains(), pin);
      if lists[pin].tail == NIL {
        return NULL;
      }
      assert NodeOk(items[..], lists[pin].chain, |lists[pin].chain| - 1);
      mi := items[lists[pin].tail].elem;
    }
  }
}
