/**
  The order of Kokyu's ready queue: the three QoS comparators (ACE/Kokyu/Kokyu_dsrt.cpp) and the
  adapter that turns a comparator into an order on items (ACE/Kokyu/DSRT_Dispatcher_Impl_T.h).
 */
module Eligibility {

  /** The fields the three comparators read. Times are of a type the user supplies: unbounded here. */
  datatype Qos = Qos(criticality: int, execTime: int, deadline: int, importance: int, priority: int)

  datatype Comparator = Muf | Mif | FixedPriority

  datatype Item = Item(guid: nat, thread: nat, qos: Qos, insertionTime: int)

  /** What a thread asks for under a guid of its own number and a fixed priority. */
  function Request(t: nat, priority: int, time: int): Item {
    Item(t, t, Qos(0, 0, 0, 0, priority), time)
  }

  function CompareMuf(now: int, qos1: Qos, qos2: Qos): int {
    if qos1.criticality > qos2.criticality then 1
    else if qos2.criticality > qos1.criticality then -1
    else
      var laxity1 := qos1.deadline - now - qos1.execTime;
      var laxity2 := qos2.deadline - now - qos2.execTime;
      if laxity1 < laxity2 then 1 else if laxity1 == laxity2 then 0 else -1
  }

  function CompareMif(qos1: Qos, qos2: Qos): int {
    if qos1.importance > qos2.importance then 1 else if qos1.importance == qos2.importance then 0 else -1
  }

  function CompareFixedPriority(qos1: Qos, qos2: Qos): int {
    if qos1.priority > qos2.priority then 1 else if qos1.priority == qos2.priority then 0 else -1
  }

  /** Only MUF reads the clock. */
  function Compare(c: Comparator, now: int, qos1: Qos, qos2: Qos): int {
    match c
    case Muf => CompareMuf(now, qos1, qos2)
    case Mif => CompareMif(qos1, qos2)
    case FixedPriority => CompareFixedPriority(qos1, qos2)
  }

  predicate MoreEligible(c: Comparator, now: int, item1: Item, item2: Item) {
    var rc := Compare(c, now, item1.qos, item2.qos);
    rc == 1 || (rc == 0 && item1.insertionTime < item2.insertionTime)
  }

  // ----- What the order means

  /** An item's merit, compared lexicographically. MUF: the more critical first, then the one whose
      latest start time, deadline less execution time, is nearer. */
  function Merit(c: Comparator, qos: Qos): (int, int) {
    match c
    case Muf => (qos.criticality, qos.execTime - qos.deadline)
    case Mif => (qos.importance, 0)
    case FixedPriority => (qos.priority, 0)
  }

  /** The order the queue is meant to have: by merit, first come first served among equals. It does not
      mention the clock. */
  predicate Before(c: Comparator, a: Item, b: Item) {
    var (a1, a2), (b1, b2) := Merit(c, a.qos), Merit(c, b.qos);
    a1 > b1 || (a1 == b1 && a2 > b2) || (a1 == b1 && a2 == b2 && a.insertionTime < b.insertionTime)
  }

  /** Neither comes before the other: the tree takes their keys for equal. */
  predicate Tied(c: Comparator, a: Item, b: Item) {
    !Before(c, a, b) && !Before(c, b, a)
  }

  /** The adapter computes that order, whatever the time is: a queue in order stays in order. */
  lemma MoreEligibleIsBefore(c: Comparator, now: int, a: Item, b: Item)
    ensures MoreEligible(c, now, a, b) <==> Before(c, a, b)
  {}

  /** It is a strict weak order, and only equal merit and equal insertion times tie. */
  lemma StrictWeakOrder(c: Comparator, x: Item, y: Item, z: Item)
    ensures !Before(c, x, x)
    ensures Before(c, x, y) ==> !Before(c, y, x)
    ensures Before(c, x, y) && Before(c, y, z) ==> Before(c, x, z)
    ensures Tied(c, x, y) && Tied(c, y, z) ==> Tied(c, x, z)
    ensures Tied(c, x, y) <==> Merit(c, x.qos) == Merit(c, y.qos) && x.insertionTime == y.insertionTime
  {}

  /** The time that is left until an item must be started to meet its deadline. */
  function Laxity(now: int, qos: Qos): int {
    qos.deadline - now - qos.execTime
  }

  /** What the more eligible item has: greater importance under MIF, a higher priority under fixed
      priorities, greater criticality or, at equal criticality, less laxity under MUF; where these are
      equal, the earlier insertion. */
  lemma MoreEligibleMeans(now: int, a: Item, b: Item)
    ensures MoreEligible(Mif, now, a, b) <==>
      || a.qos.importance > b.qos.importance
      || (a.qos.importance == b.qos.importance && a.insertionTime < b.insertionTime)
    ensures MoreEligible(FixedPriority, now, a, b) <==>
      || a.qos.priority > b.qos.priority
      || (a.qos.priority == b.qos.priority && a.insertionTime < b.insertionTime)
    ensures MoreEligible(Muf, now, a, b) <==>
      || a.qos.criticality > b.qos.criticality
      || (a.qos.criticality == b.qos.criticality &&
          (|| Laxity(now, a.qos) < Laxity(now, b.qos)
           || (Laxity(now, a.qos) == Laxity(now, b.qos) && a.insertionTime < b.insertionTime)))
  {}

  /** First come first served: among items whose QoS compares equal the earlier insertion wins. */
  lemma FifoAmongEquals(c: Comparator, now: int, a: Item, b: Item)
    requires Compare(c, now, a.qos, b.qos) == 0
    ensures MoreEligible(c, now, a, b) <==> a.insertionTime < b.insertionTime
    ensures Compare(c, now, b.qos, a.qos) == 0
  {}
}
