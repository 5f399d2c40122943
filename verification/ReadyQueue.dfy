/**
  Sched_Ready_Queue (ACE/Kokyu/DSRT_Sched_Queue_T.cpp): schedulable items indexed twice, by guid in a
  hash map and by eligibility in a red-black tree that refuses equal keys. Here the hash map is a `map`
  and the tree is the sequence of its items in order; a tree node is known by its item.
 */
module ReadyQueue {
  import opened Eligibility

  type Items = map<nat, Item>

  // ----- What the queue holds, as a finite map

  ghost predicate TieIn(c: Comparator, items: Items, item: Item) {
    exists g :: g in items && Tied(c, items[g], item)
  }

  /** One item a guid, and no two items with equal keys. */
  ghost predicate Keyed(c: Comparator, items: Items) {
    && (forall g | g in items :: items[g].guid == g)
    && forall g, h | g in items && h in items && g != h ::
      Before(c, items[g], items[h]) || Before(c, items[h], items[g])
  }

  /** The guid whose item comes before every other. */
  ghost predicate IsHead(c: Comparator, items: Items, g: nat) {
    g in items && forall h | h in items && h != g :: Before(c, items[g], items[h])
  }

  lemma {:induction false} HeadExists(c: Comparator, items: Items)
    requires Keyed(c, items) && items != map[]
    ensures exists g :: IsHead(c, items, g)
    decreases |items|
  {
    var x :| x in items;
    var rest := items - {x};
    if rest == map[] {
      assert forall h | h in items && h != x :: h in rest;
      assert IsHead(c, items, x);
    } else {
      assert items == rest[x := items[x]];
      HeadExists(c, rest);
      var g :| IsHead(c, rest, g);
      if Before(c, items[g], items[x]) {
        assert forall h | h in items && h != g && h != x :: h in rest;
        assert IsHead(c, items, g);
      } else {
        forall h | h in items && h != x ensures Before(c, items[x], items[h]) {
          assert h in rest;
          StrictWeakOrder(c, items[x], items[g], items[h]);
        }
        assert IsHead(c, items, x);
      }
    }
  }

  ghost function Head(c: Comparator, items: Items): (g: nat)
    requires Keyed(c, items) && items != map[]
    ensures IsHead(c, items, g)
  {
    HeadExists(c, items);
    var g :| IsHead(c, items, g);
    g
  }

  lemma HeadUnique(c: Comparator, items: Items, g: nat)
    requires Keyed(c, items) && IsHead(c, items, g)
    ensures Head(c, items) == g
  {
    var h := Head(c, items);
    StrictWeakOrder(c, items[g], items[h], items[g]);
  }

  /** `insert` on the map: an item already there under the guid goes first, and stays gone when the new
      item's key ties with one of the others. */
  ghost function Inserted(c: Comparator, items: Items, item: Item): (Items, bool) {
    var rest := items - {item.guid};
    if TieIn(c, rest, item) then (rest, false) else (rest[item.guid := item], true)
  }

  /** Only the item's own guid is touched; the new item is there if and only if no other guid's item has
      a key that ties with it, and otherwise the guid is gone. */
  lemma InsertedMeans(c: Comparator, items: Items, item: Item, g: nat)
    ensures var (items', ok) := Inserted(c, items, item);
      && (g != item.guid ==> (g in items' <==> g in items) && (g in items ==> items'[g] == items[g]))
      && (item.guid in items' <==> ok) && (ok ==> items'[item.guid] == item)
      && (ok <==> forall h | h in items && h != item.guid :: !Tied(c, items[h], item))
  {
    hide Tied;
    var rest := items - {item.guid};
    assert forall h :: h in rest <==> h in items && h != item.guid;
    assert TieIn(c, rest, item) <==> exists h :: h in rest && Tied(c, rest[h], item);
  }

  /** No guid but g is touched. */
  ghost predicate OnlyAt(items: Items, items': Items, g: nat) {
    forall u | u != g :: (u in items' <==> u in items) && (u in items ==> items'[u] == items[u])
  }

  ghost predicate HasThread(items: Items, t: nat) {
    exists g :: g in items && items[g].thread == t
  }

  lemma InsertedKeyed(c: Comparator, items: Items, item: Item)
    requires Keyed(c, items)
    ensures Keyed(c, Inserted(c, items, item).0)
  {
    var rest := items - {item.guid};
    if !TieIn(c, rest, item) {
      forall h | h in rest ensures Before(c, item, rest[h]) || Before(c, rest[h], item) {
      }
    }
  }

  lemma RemovedKeyed(c: Comparator, items: Items, g: nat)
    requires Keyed(c, items)
    ensures Keyed(c, items - {g})
  {}

  /** An insertion moves the head only to itself, unless it replaces the head. */
  lemma HeadAfterInsert(c: Comparator, items: Items, item: Item)
    requires Keyed(c, items) && items != map[] && Head(c, items) != item.guid
    ensures var (items', ok) := Inserted(c, items, item);
      && Keyed(c, items') && items' != map[]
      && Head(c, items') == if ok && Before(c, item, items[Head(c, items)]) then item.guid else Head(c, items)
  {
    var g := Head(c, items);
    var (items', ok) := Inserted(c, items, item);
    InsertedKeyed(c, items, item);
    assert g in items';
    if ok && Before(c, item, items[g]) {
      forall h | h in items' && h != item.guid ensures Before(c, item, items'[h]) {
        StrictWeakOrder(c, item, items[g], items[h]);
      }
      HeadUnique(c, items', item.guid);
    } else {
      HeadUnique(c, items', g);
    }
  }

  // ----- The queue object

  predicate Sorted(c: Comparator, s: seq<Item>) {
    forall i, j | 0 <= i < j < |s| :: Before(c, s[i], s[j])
  }

  /** Two indexes that hold the same items, one a guid, hold equally many. */
  lemma {:induction false} SameSize(c: Comparator, items: Items, s: seq<Item>)
    requires forall g | g in items :: items[g].guid == g && items[g] in s
    requires forall x | x in s :: x.guid in items && items[x.guid] == x
    requires Sorted(c, s)
    ensures |items| == |s|
  {
    hide Before;
    if s == [] {
      assert items == map[] by {
        assert forall g :: g !in items;
      }
    } else {
      var last := s[|s| - 1];
      var rest := items - {last.guid};
      assert items == rest[last.guid := last];
      forall x | x in s[..|s| - 1] ensures x.guid in rest && rest[x.guid] == x {
        StrictWeakOrder(c, last, last, last);
      }
      forall g | g in rest ensures rest[g].guid == g && rest[g] in s[..|s| - 1] {
      }
      SameSize(c, rest, s[..|s| - 1]);
    }
  }

  /** Whether one of the first i items is of thread t. */
  ghost predicate InFirst(s: seq<Item>, i: nat, t: nat) {
    exists k | 0 <= k < i && k < |s| :: s[k].thread == t
  }

  lemma FirstMore(s: seq<Item>, i: nat)
    requires i < |s|
    ensures forall t: nat :: InFirst(s, i + 1, t) <==> InFirst(s, i, t) || s[i].thread == t
  {
    forall t: nat ensures InFirst(s, i + 1, t) <==> InFirst(s, i, t) || s[i].thread == t {
      if InFirst(s, i + 1, t) {
        var k :| 0 <= k < i + 1 && s[k].thread == t;
        assert k < i || k == i;
      }
      if InFirst(s, i, t) {
        var k :| 0 <= k < i && s[k].thread == t;
        assert k < i + 1;
      }
    }
  }

  const INT_MAX := 0x7fff_ffff

  datatype ItemVar = Null | Ref(item: Item)

  class SchedReadyQueue {
    const comparator: Comparator
    var hashMap: map<nat, Item>
    var prioQueue: seq<Item>

    /** The two indexes hold the same items, one a guid, and the tree is in order. */
    ghost predicate Valid()
      reads this
    {
      && (forall g | g in hashMap :: hashMap[g].guid == g && hashMap[g] in prioQueue)
      && (forall x | x in prioQueue :: x.guid in hashMap && hashMap[x.guid] == x)
      && Sorted(comparator, prioQueue)
    }

    constructor (comparator: Comparator)
      ensures Valid() && hashMap == map[] && this.comparator == comparator
    {
      this.comparator := comparator;
      hashMap := map[];
      prioQueue := [];
    }

    /** The tree's `bind`: refused when the tree has an equal key. */
    method Bind(now: int, item: Item) returns (bound: bool)
      requires Sorted(comparator, prioQueue)
      modifies this`prioQueue
      ensures Sorted(comparator, prioQueue)
      ensures bound <==> forall x | x in old(prioQueue) :: !Tied(comparator, x, item)
      ensures bound ==> forall x :: x in prioQueue <==> x in old(prioQueue) || x == item
      ensures !bound ==> prioQueue == old(prioQueue)
    {
      hide Before, MoreEligible;
      var i := 0;
      while i < |prioQueue| && MoreEligible(comparator, now, prioQueue[i], item)
        invariant prioQueue == old(prioQueue) && 0 <= i <= |prioQueue|
        invariant forall k | 0 <= k < i :: Before(comparator, prioQueue[k], item)
      {
        MoreEligibleIsBefore(comparator, now, prioQueue[i], item);
        i := i + 1;
      }
      var before, after := prioQueue[..i], prioQueue[i..];
      assert prioQueue == before + after;
      if i < |prioQueue| {
        MoreEligibleIsBefore(comparator, now, prioQueue[i], item);
        MoreEligibleIsBefore(comparator, now, item, prioQueue[i]);
        if !MoreEligible(comparator, now, item, prioQueue[i]) {
          assert prioQueue[i] in prioQueue;
          return false;
        }
        forall k | i <= k < |prioQueue| ensures Before(comparator, item, prioQueue[k]) {
          StrictWeakOrder(comparator, item, prioQueue[i], prioQueue[k]);
        }
      }
      prioQueue := before + [item] + after;
      bound := true;
    }

    /** The tree's `unbind` of a node. */
    method Unbind(node: Item)
      requires Sorted(comparator, prioQueue)
      modifies this`prioQueue
      ensures Sorted(comparator, prioQueue)
      ensures forall x :: x in prioQueue <==> x in old(prioQueue) && x != node
    {
      var i := 0;
      while i < |prioQueue| && prioQueue[i] != node
        invariant 0 <= i <= |prioQueue|
        invariant node !in prioQueue[..i]
      {
        i := i + 1;
      }
      if i < |prioQueue| {
        var before, after := prioQueue[..i], prioQueue[i + 1..];
        assert prioQueue == before + [node] + after;
        assert node !in after;
        prioQueue := before + after;
      }
    }

    /** `insert`; `time` is what the clock shows at its start, `now` what the comparator reads. */
    method Insert(now: int, time: int, item: Item) returns (rc: int)
      requires Valid()
      modifies this
      ensures Valid() && rc in {0, -1}
      ensures (hashMap, rc == 0) == Inserted(comparator, old(hashMap), item.(insertionTime := time))
    {
      var item := item.(insertionTime := time);
      if item.guid in hashMap {
        var node := hashMap[item.guid];
        hashMap := hashMap - {item.guid};
        Unbind(node);
      }
      assert Valid();
      assert hashMap == old(hashMap) - {item.guid};
      var bound := Bind(now, item);
      if bound {
        forall g | g in hashMap ensures !Tied(comparator, hashMap[g], item) {
          assert hashMap[g] in old(prioQueue);
        }
        hashMap := hashMap[item.guid := item];
        rc := 0;
      } else {
        var x :| x in prioQueue && Tied(comparator, x, item);
        assert hashMap[x.guid] == x;
        rc := -1;
      }
    }

    method Remove(guid: nat) returns (rc: int)
      requires Valid()
      modifies this
      ensures Valid()
      ensures hashMap == old(hashMap) - {guid}
      ensures rc == if guid in old(hashMap) then 0 else -1
    {
      if guid in hashMap {
        var node := hashMap[guid];
        hashMap := hashMap - {guid};
        Unbind(node);
        return 0;
      }
      rc := -1;
    }

    /** What the two indexes hold is one map without ties, and the tree starts with its head. */
    lemma ValidIsKeyed()
      requires Valid()
      ensures Keyed(comparator, hashMap)
      ensures hashMap == map[] <==> prioQueue == []
      ensures prioQueue != [] ==> prioQueue[0] == hashMap[Head(comparator, hashMap)]
    {
      hide Before;
      forall g, h | g in hashMap && h in hashMap && g != h
        ensures Before(comparator, hashMap[g], hashMap[h]) || Before(comparator, hashMap[h], hashMap[g])
      {
        var i :| 0 <= i < |prioQueue| && prioQueue[i] == hashMap[g];
        var j :| 0 <= j < |prioQueue| && prioQueue[j] == hashMap[h];
      }
      if prioQueue != [] {
        assert prioQueue[0] in prioQueue;
        HeadUnique(comparator, hashMap, prioQueue[0].guid);
      } else {
        assert forall g :: g !in hashMap;
      }
    }

    method MostEligible(item: ItemVar) returns (rc: int, found: ItemVar)
      requires Valid()
      ensures Keyed(comparator, hashMap)
      ensures hashMap == map[] ==> rc == -1 && found == item
      ensures hashMap != map[] ==> rc == 0 && found == Ref(hashMap[Head(comparator, hashMap)])
    {
      ValidIsKeyed();
      if |prioQueue| == 0 {
        return -1, item;
      }
      return 0, Ref(prioQueue[0]);
    }

    method Find(guid: nat, item: ItemVar) returns (rc: int, found: ItemVar)
      requires Valid()
      ensures guid in hashMap ==> rc == 0 && found == Ref(hashMap[guid]) && found.item in prioQueue
      ensures guid !in hashMap ==> rc == -1 && found == item && forall x | x in prioQueue :: x.guid != guid
    {
      if guid !in hashMap {
        return -1, item;
      }
      return 0, Ref(hashMap[guid]);
    }

    /** The number of items, as far as an int goes. */
    method CurrentSize() returns (size: int)
      requires Valid()
      ensures size == if |hashMap| <= INT_MAX then |hashMap| else INT_MAX
      ensures size <= 0 <==> hashMap == map[]
    {
      SameSize(comparator, hashMap, prioQueue);
      size := if |prioQueue| <= INT_MAX then |prioQueue| else INT_MAX;
    }

    /** Moves the queued threads that are at one priority to another; `prio` is what the system holds. */
    method ChangePrio(prio: map<nat, int>, oldPrio: int, newPrio: int) returns (prio': map<nat, int>)
      requires Valid() && forall x | x in prioQueue :: x.thread in prio
      ensures prio'.Keys == prio.Keys
      ensures forall t | t in prio ::
        prio'[t] == (if prio[t] == oldPrio && HasThread(hashMap, t) then newPrio else prio[t])
    {
      hide Sorted;
      prio' := prio;
      var i := 0;
      while i < |prioQueue|
        invariant 0 <= i <= |prioQueue| && prio'.Keys == prio.Keys
        invariant forall t | t in prio ::
          prio'[t] == (if prio[t] == oldPrio && InFirst(prioQueue, i, t) then newPrio else prio[t])
      {
        var thread := prioQueue[i].thread;
        FirstMore(prioQueue, i);
        hide InFirst;
        if prio'[thread] == oldPrio {
          prio' := prio'[thread := newPrio];
        }
        i := i + 1;
      }
      forall t | t in prio ensures InFirst(prioQueue, i, t) <==> HasThread(hashMap, t) {
        if k :| 0 <= k < i && prioQueue[k].thread == t {
          assert prioQueue[k] in prioQueue;
          assert hashMap[prioQueue[k].guid].thread == t;
        }
        if g :| g in hashMap && hashMap[g].thread == t {
          assert hashMap[g] in prioQueue;
        }
      }
    }
  }
}
