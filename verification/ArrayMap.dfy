/**
  ACE_Array_Map (ACE/ace/Array_Map.cpp): a map kept in an array, searched from the front. An iterator is
  an index, the end iterator the number of elements. The key comparison is equality.
 */
module ArrayMap {

  datatype Node<K, V> = Node(first: K, second: V)

  ghost predicate UniqueKeys<K, V>(s: seq<Node<K, V>>) {
    forall i, j | 0 <= i < j < |s| :: s[i].first != s[j].first
  }

  /** The map a sequence of nodes stands for. */
  function ToMap<K(==), V>(s: seq<Node<K, V>>): map<K, V> {
    if s == [] then map[] else ToMap(s[..|s| - 1])[s[|s| - 1].first := s[|s| - 1].second]
  }

  lemma {:induction false} ToMapHas<K, V>(s: seq<Node<K, V>>, i: nat)
    requires UniqueKeys(s) && i < |s|
    ensures s[i].first in ToMap(s) && ToMap(s)[s[i].first] == s[i].second
    decreases |s|
  {
    var n := |s| - 1;
    if i < n {
      ToMapHas(s[..n], i);
      assert s[i].first != s[n].first;
    }
  }

  lemma {:induction false} ToMapIndex<K, V>(s: seq<Node<K, V>>, k: K) returns (i: nat)
    requires k in ToMap(s)
    ensures i < |s| && s[i].first == k
    decreases |s|
  {
    i := |s| - 1;
    if s[i].first != k {
      i := ToMapIndex(s[..i], k);
    }
  }

  /** `erase` on the sequence: the last node takes the place of the erased one. */
  function SwapRemove<K, V>(s: seq<Node<K, V>>, pos: nat): (r: seq<Node<K, V>>)
    requires pos < |s|
    ensures |r| == |s| - 1 && forall i | 0 <= i < |r| :: r[i] == s[if i == pos then |s| - 1 else i]
  {
    s[pos := s[|s| - 1]][..|s| - 1]
  }

  lemma SwapRemoveUnique<K, V>(s: seq<Node<K, V>>, pos: nat)
    requires pos < |s| && UniqueKeys(s)
    ensures UniqueKeys(SwapRemove(s, pos))
  {
    hide SwapRemove;
  }

  lemma SwapRemoveKeeps<K, V>(s: seq<Node<K, V>>, pos: nat, k: K)
    requires pos < |s| && UniqueKeys(s) && k in ToMap(s) && k != s[pos].first
    ensures k in ToMap(SwapRemove(s, pos)) && ToMap(SwapRemove(s, pos))[k] == ToMap(s)[k]
  {
    hide ToMap, SwapRemove;
    SwapRemoveUnique(s, pos);
    var i := ToMapIndex(s, k);
    ToMapHas(s, i);
    ToMapHas(SwapRemove(s, pos), if i == |s| - 1 then pos else i);
  }

  lemma SwapRemoveAddsNothing<K, V>(s: seq<Node<K, V>>, pos: nat, k: K)
    requires pos < |s| && UniqueKeys(s) && k in ToMap(SwapRemove(s, pos))
    ensures k in ToMap(s) && k != s[pos].first
  {
    hide ToMap, SwapRemove;
    var i := ToMapIndex(SwapRemove(s, pos), k);
    var j := if i == pos then |s| - 1 else i;
    ToMapHas(s, j);
    assert s[j].first != s[pos].first;
  }

  /** The map loses the erased node's key and nothing else. */
  lemma SwapRemoveIsErase<K, V>(s: seq<Node<K, V>>, pos: nat)
    requires pos < |s| && UniqueKeys(s)
    ensures ToMap(SwapRemove(s, pos)) == ToMap(s) - {s[pos].first}
  {
    hide *;
    var r, m := ToMap(SwapRemove(s, pos)), ToMap(s) - {s[pos].first};
    forall k | k in m ensures k in r && r[k] == m[k] {
      SwapRemoveKeeps(s, pos, k);
    }
    forall k | k in r ensures k in m {
      SwapRemoveAddsNothing(s, pos, k);
    }
    assert r == m;
  }

  class ArrayMap<K(==), V> {
    var size: nat
    var nodes: array<Node<K, V>>
    /** A default-constructed element. */
    const default: Node<K, V>

    ghost predicate Valid()
      reads this, nodes
    {
      size <= nodes.Length && UniqueKeys(nodes[..size])
    }

    ghost function Contents(): map<K, V>
      reads this, nodes
      requires Valid()
    {
      ToMap(nodes[..size])
    }

    constructor (capacity: nat, default: Node<K, V>)
      ensures Valid() && fresh(nodes) && nodes.Length == capacity && Contents() == map[] && this.default == default
    {
      size := 0;
      this.default := default;
      nodes := new Node<K, V>[capacity](_ => default);
    }

    /** The first index with the key, or the end. */
    method Find(k: K) returns (i: nat)
      requires Valid()
      ensures i <= size && (i < size <==> k in Contents())
      ensures i < size ==> nodes[i] == Node(k, Contents()[k])
    {
      hide ToMap;
      ghost var s := nodes[..size];
      i := 0;
      while i < size
        invariant 0 <= i <= size && forall j | 0 <= j < i :: s[j].first != k
      {
        if k == nodes[i].first {
          ToMapHas(s, i);
          return;
        }
        i := i + 1;
      }
      if k in ToMap(s) {
        var j := ToMapIndex(s, k);
      }
    }

    /** `grow`: room for s more, by moving to a larger array if need be; the elements stay. */
    method Grow(s: nat)
      requires Valid()
      modifies this
      ensures Valid() && size == old(size) && nodes[..size] == old(nodes[..size])
      ensures nodes.Length == if size + s > old(nodes).Length then size + s else old(nodes).Length
      ensures if size + s > old(nodes).Length then fresh(nodes) else nodes == old(nodes)
    {
      if size + s > nodes.Length {
        var d := default;
        var temp := new Node<K, V>[size + s](_ => d);
        var i := 0;
        while i < size
          invariant size == old(size) && nodes == old(nodes) && 0 <= i <= size
          invariant temp[..i] == nodes[..i] && nodes[..] == old(nodes[..])
        {
          temp[i] := nodes[i];
          i := i + 1;
        }
        nodes := temp;
      }
    }

    /** `insert`: appends unless the key is there already, whose value it then leaves alone. */
    method Insert(x: Node<K, V>) returns (i: nat, inserted: bool)
      requires Valid()
      modifies this, nodes
      ensures Valid() && (nodes == old(nodes) || fresh(nodes))
      ensures inserted <==> x.first !in old(Contents())
      ensures Contents() == if inserted then old(Contents())[x.first := x.second] else old(Contents())
      ensures nodes[..size] == if inserted then old(nodes[..size]) + [x] else old(nodes[..size])
      ensures i < size && nodes[i].first == x.first
    {
      inserted := false;
      i := Find(x.first);
      if i == size {
        ghost var was := nodes[..size];
        forall j | 0 <= j < |was| ensures was[j].first != x.first {
          ToMapHas(was, j);
        }
        var oldSize := size;
        Grow(1);
        i := oldSize;
        nodes[i] := x;
        size := size + 1;
        inserted := true;
        assert nodes[..size] == was + [x];
        assert (was + [x])[..|was|] == was;
      }
    }

    /** `erase` of a position; one that is out of range changes nothing. The vacated slot is reset. */
    method Erase(pos: int)
      requires Valid()
      modifies this`size, nodes
      ensures Valid()
      ensures if 0 <= pos < old(size)
              then size == old(size) - 1 && Contents() == old(Contents()) - {old(nodes[pos].first)}
                   && nodes[size] == default && nodes[..size] == old(SwapRemove(nodes[..size], pos))
              else size == old(size) && nodes[..] == old(nodes[..])
    {
      if 0 <= pos < size {
        ghost var was := nodes[..size];
        SwapRemoveUnique(was, pos);
        SwapRemoveIsErase(was, pos);
        if pos != size - 1 {
          nodes[pos] := nodes[size - 1];
        }
        nodes[size - 1] := default;
        size := size - 1;
        assert nodes[..size] == SwapRemove(was, pos);
      }
    }

    /** `erase` of a key: how many elements went, none or one. */
    method EraseKey(k: K) returns (erased: nat)
      requires Valid()
      modifies this`size, nodes
      ensures Valid() && Contents() == old(Contents()) - {k}
      ensures erased == if k in old(Contents()) then 1 else 0
    {
      var pos := Find(k);
      var oldSize := size;
      Erase(pos);
      erased := oldSize - size;
    }
  }
}
