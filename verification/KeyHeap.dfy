/**
 The heap of lib/heap.c: an array of nodes ordered by key, each node knowing its place.
 */
module KeyHeap {
  const THRESHOLD := 10000
  const MIN_SIZE := 32

  function Parent(i: nat): nat {
    if i == 0 then 0 else (i - 1) / 2
  }

  // ----- Heap order on sequences of keys -----

  ghost predicate Ordered(ks: seq<real>) {
    forall i {:trigger ks[i]} :: 0 < i < |ks| ==> ks[Parent(i)] <= ks[i]
  }

  /** Ordered but for the node at `e`, which may be too small. */
  ghost predicate UpOk(ks: seq<real>, e: nat) {
    && e < |ks|
    && (forall i {:trigger ks[i]} :: 0 < i < |ks| && i != e ==> ks[Parent(i)] <= ks[i])
    && (forall i {:trigger ks[i]} :: 0 < i < |ks| && Parent(i) == e ==> ks[Parent(e)] <= ks[i])
  }

  /** Ordered but for the node at `e`, which may be too large. */
  ghost predicate DownOk(ks: seq<real>, e: nat) {
    && e < |ks|
    && (forall i {:trigger ks[i]} :: 0 < i < |ks| && Parent(i) != e ==> ks[Parent(i)] <= ks[i])
    && (forall i {:trigger ks[i]} :: 0 < i < |ks| && Parent(i) == e && e > 0 ==> ks[Parent(e)] <= ks[i])
  }

  /** Ordered but for the node at `e`. */
  ghost predicate HoleOk(ks: seq<real>, e: nat) {
    && e < |ks|
    && (forall i {:trigger ks[i]} :: 0 < i < |ks| && i != e && Parent(i) != e ==> ks[Parent(i)] <= ks[i])
    && (forall i {:trigger ks[i]} :: 0 < i < |ks| && Parent(i) == e && e > 0 ==> ks[Parent(e)] <= ks[i])
  }

  function Swapped<T>(s: seq<T>, i: nat, j: nat): seq<T>
    requires i < |s| && j < |s|
  {
    s[i := s[j]][j := s[i]]
  }

  lemma UpStep(ks: seq<real>, e: nat)
    requires UpOk(ks, e) && e > 0 && ks[Parent(e)] > ks[e]
    ensures UpOk(Swapped(ks, Parent(e), e), Parent(e))
  {
  }

  lemma UpDone(ks: seq<real>, e: nat)
    requires UpOk(ks, e) && (e == 0 || ks[Parent(e)] <= ks[e])
    ensures Ordered(ks)
  {
  }

  lemma DownStep(ks: seq<real>, e: nat, kid: nat)
    requires DownOk(ks, e) && 0 < kid < |ks| && Parent(kid) == e && ks[e] > ks[kid]
    requires forall i {:trigger ks[i]} :: 0 < i < |ks| && Parent(i) == e ==> ks[kid] <= ks[i]
    ensures DownOk(Swapped(ks, kid, e), kid)
  {
  }

  lemma DownDone(ks: seq<real>, e: nat)
    requires DownOk(ks, e) && forall i {:trigger ks[i]} :: 0 < i < |ks| && Parent(i) == e ==> ks[e] <= ks[i]
    ensures Ordered(ks)
  {
  }

  lemma HoleUp(ks: seq<real>, e: nat)
    requires HoleOk(ks, e) && ks[e] < ks[Parent(e)]
    ensures UpOk(ks, e)
  {
  }

  lemma HoleDown(ks: seq<real>, e: nat)
    requires HoleOk(ks, e) && ks[Parent(e)] <= ks[e]
    ensures DownOk(ks, e)
  {
  }

  lemma OrderedDown(ks: seq<real>, e: nat)
    requires Ordered(ks) && e < |ks|
    ensures DownOk(ks, e)
  {
    if e > 0 {
      forall i | 0 < i < |ks| && Parent(i) == e ensures ks[Parent(e)] <= ks[i] {
        assert ks[Parent(e)] <= ks[e];
      }
    }
  }

  /** A new key at one place, or the last key moved there. */
  lemma HoleOpens(ks: seq<real>, e: nat, k: real)
    requires Ordered(ks) && e < |ks|
    ensures HoleOk(ks[e := k], e)
  {
    if e > 0 {
      forall i | 0 < i < |ks| && Parent(i) == e ensures ks[Parent(e)] <= ks[i] {
        assert ks[Parent(e)] <= ks[e];
      }
    }
  }

  /** The root holds a least key. */
  lemma {:induction false} RootLeast(ks: seq<real>, i: nat)
    requires Ordered(ks) && i < |ks|
    ensures ks[0] <= ks[i]
  {
    if i > 0 {
      RootLeast(ks, Parent(i));
    }
  }

  // ----- Nodes -----

  class HeapNode {
    var key: real
    var id: nat
    var data: int

    constructor (k: real, i: nat, d: int)
      ensures key == k && id == i && data == d
    {
      key, id, data := k, i, d;
    }
  }

  ghost function KeysOf(ns: seq<HeapNode>): (ks: seq<real>)
    reads ns`key
    ensures |ks| == |ns|
  {
    if ns == [] then [] else KeysOf(ns[..|ns| - 1]) + [ns[|ns| - 1].key]
  }

  /** What the heap holds: keys and data, whatever their places. */
  ghost function EntriesOf(ns: seq<HeapNode>): (es: seq<(real, int)>)
    reads ns`key, ns`data
    ensures |es| == |ns|
  {
    if ns == [] then [] else EntriesOf(ns[..|ns| - 1]) + [(ns[|ns| - 1].key, ns[|ns| - 1].data)]
  }

  ghost function Bag(ns: seq<HeapNode>): multiset<(real, int)>
    reads ns`key, ns`data
  {
    multiset(EntriesOf(ns))
  }

  ghost function NodeBag(ns: seq<HeapNode>): multiset<HeapNode> {
    multiset(ns)
  }

  lemma {:induction false} KeyAt(ns: seq<HeapNode>, i: nat)
    requires i < |ns|
    ensures KeysOf(ns)[i] == ns[i].key
    decreases |ns|
  {
    if i < |ns| - 1 {
      KeyAt(ns[..|ns| - 1], i);
    }
  }

  lemma {:induction false} EntryAt(ns: seq<HeapNode>, i: nat)
    requires i < |ns|
    ensures EntriesOf(ns)[i] == (ns[i].key, ns[i].data)
    decreases |ns|
  {
    if i < |ns| - 1 {
      EntryAt(ns[..|ns| - 1], i);
    }
  }

  lemma KeysAll(ns: seq<HeapNode>)
    ensures forall i :: 0 <= i < |ns| ==> KeysOf(ns)[i] == ns[i].key
  {
    forall i | 0 <= i < |ns| ensures KeysOf(ns)[i] == ns[i].key {
      KeyAt(ns, i);
    }
  }

  lemma EntriesAll(ns: seq<HeapNode>)
    ensures forall i :: 0 <= i < |ns| ==> EntriesOf(ns)[i] == (ns[i].key, ns[i].data)
  {
    forall i | 0 <= i < |ns| ensures EntriesOf(ns)[i] == (ns[i].key, ns[i].data) {
      EntryAt(ns, i);
    }
  }

  lemma SwapKeys(ns: seq<HeapNode>, i: nat, j: nat)
    requires i < |ns| && j < |ns|
    ensures KeysOf(Swapped(ns, i, j)) == Swapped(KeysOf(ns), i, j)
  {
    hide KeysOf;
    KeysAll(ns);
    KeysAll(Swapped(ns, i, j));
  }

  lemma SwapEntries(ns: seq<HeapNode>, i: nat, j: nat)
    requires i < |ns| && j < |ns|
    ensures Bag(Swapped(ns, i, j)) == Bag(ns) && NodeBag(Swapped(ns, i, j)) == NodeBag(ns)
  {
    hide EntriesOf;
    EntriesAll(ns);
    EntriesAll(Swapped(ns, i, j));
    assert EntriesOf(Swapped(ns, i, j)) == Swapped(EntriesOf(ns), i, j);
    hide Swapped;
    SwapMultiset(EntriesOf(ns), i, j);
    SwapMultiset(ns, i, j);
  }

  class Heap {
    var nodes: seq<HeapNode>
    var size: nat
    var age: real
    const genKey: (int, real) -> real

    /** nodes[i].id == i, so no node occurs twice. */
    ghost predicate Linked()
      reads this, nodes`id
    {
      |nodes| <= size && size > 0 && forall i :: 0 <= i < |nodes| ==> nodes[i].id == i
    }

    ghost predicate Valid()
      reads this, nodes
    {
      Linked() && Ordered(KeysOf(nodes))
    }

    ghost function Entries(): multiset<(real, int)>
      reads this, nodes`key, nodes`data
    {
      Bag(nodes)
    }

    ghost predicate Has(elm: HeapNode)
      reads this, elm
    {
      elm.id < |nodes| && nodes[elm.id] == elm
    }

    constructor (initSize: int, gen: (int, real) -> real)
      ensures Valid() && nodes == [] && genKey == gen && age == 0.0
    {
      size := if initSize <= 0 then MIN_SIZE else initSize;
      nodes, age, genKey := [], 0.0, gen;
    }

    /** _heap_swap_element. */
    method SwapElement(elm1: HeapNode, elm2: HeapNode)
      requires Linked() && Has(elm1) && Has(elm2)
      modifies this`nodes, elm1`id, elm2`id
      ensures Linked() && Has(elm1) && Has(elm2) && elm1.id == old(elm2.id) && elm2.id == old(elm1.id)
      ensures nodes == Swapped(old(nodes), old(elm1.id), old(elm2.id))
    {
      var elm1Id := elm1.id;
      elm1.id := elm2.id;
      elm2.id := elm1Id;
      nodes := nodes[elm1.id := elm1];
      nodes := nodes[elm2.id := elm2];
    }

    /** _heap_ify_up: the heap is ordered but for `elm`, which may be too small. */
    method IfyUp(elm: HeapNode)
      requires Linked() && Has(elm) && UpOk(KeysOf(nodes), elm.id)
      modifies this`nodes, nodes`id
      ensures Linked() && Has(elm) && Ordered(KeysOf(nodes)) && NodeBag(nodes) == old(NodeBag(nodes)) && Entries() == old(Entries())
    {
      hide KeysOf, Bag, NodeBag, UpOk, Ordered, Swapped, Parent;
      while elm.id > 0
        invariant Linked() && Has(elm) && UpOk(KeysOf(nodes), elm.id)
        invariant NodeBag(nodes) == old(NodeBag(nodes)) && Bag(nodes) == old(Bag(nodes))
        decreases elm.id
      {
        ParentLess(elm.id);
        var parentNode := nodes[Parent(elm.id)];
        KeyAt(nodes, Parent(elm.id));
        KeyAt(nodes, elm.id);
        if parentNode.key <= elm.key {
          break;
        }
        ghost var ns, e, p := nodes, elm.id, Parent(elm.id);
        UpStep(KeysOf(nodes), e);
        SameNodes(old(nodes), nodes);
        assert parentNode in nodes && elm in nodes;
        SwapElement(parentNode, elm);
        SwapKeys(ns, p, e);
        SwapEntries(ns, p, e);
      }
      UpDone(KeysOf(nodes), elm.id);
    }

    /** The child with the smaller key, if there is one. */
    method SmallerKid(elm: HeapNode) returns (kid: nat)
      requires Linked() && Has(elm)
      ensures kid == 0 ==> forall i :: 0 < i < |nodes| ==> Parent(i) != elm.id
      ensures kid != 0 ==> kid < |nodes| && Parent(kid) == elm.id
      ensures kid != 0 ==> forall i :: 0 < i < |nodes| && Parent(i) == elm.id ==> nodes[kid].key <= nodes[i].key
    {
      var left, right := 2 * elm.id + 1, 2 * elm.id + 2;
      if left >= |nodes| {
        return 0;
      }
      kid := if right < |nodes| && nodes[right].key < nodes[left].key then right else left;
    }

    /** _heap_ify_down: the heap is ordered but for `elm`, which may be too large. */
    method IfyDown(elm: HeapNode)
      requires Linked() && Has(elm) && DownOk(KeysOf(nodes), elm.id)
      modifies this`nodes, nodes`id
      ensures Linked() && Has(elm) && Ordered(KeysOf(nodes)) && NodeBag(nodes) == old(NodeBag(nodes)) && Entries() == old(Entries())
    {
      hide KeysOf, Bag, NodeBag, DownOk, Ordered, Swapped, Parent;
      while true
        invariant Linked() && Has(elm) && DownOk(KeysOf(nodes), elm.id) && |nodes| == |old(nodes)|
        invariant NodeBag(nodes) == old(NodeBag(nodes)) && Bag(nodes) == old(Bag(nodes))
        decreases |nodes| - elm.id
      {
        var k := SmallerKid(elm);
        KidKeys(nodes, elm.id, k);
        if k == 0 || elm.key <= nodes[k].key {
          break;
        }
        var kid := nodes[k];
        ParentLess(k);
        ghost var ns, e := nodes, elm.id;
        DownStep(KeysOf(nodes), e, k);
        SameNodes(old(nodes), nodes);
        assert kid in nodes && elm in nodes;
        SwapElement(kid, elm);
        SwapKeys(ns, k, e);
        SwapEntries(ns, k, e);
        SwapSize(ns, k, e);
      }
      DownDone(KeysOf(nodes), elm.id);
    }

    /** Restore the order after the key at one place has changed. */
    method Settle(elm: HeapNode)
      requires Linked() && Has(elm) && HoleOk(KeysOf(nodes), elm.id)
      modifies this`nodes, nodes`id
      ensures Valid() && Has(elm) && NodeBag(nodes) == old(NodeBag(nodes)) && Entries() == old(Entries())
    {
      hide KeysOf, Bag, NodeBag, UpOk, DownOk, HoleOk, Ordered, Swapped;
      KeyAt(nodes, elm.id);
      KeyAt(nodes, Parent(elm.id));
      if elm.key < nodes[Parent(elm.id)].key {
        HoleUp(KeysOf(nodes), elm.id);
        IfyUp(elm);
        OrderedDown(KeysOf(nodes), elm.id);
      } else {
        HoleDown(KeysOf(nodes), elm.id);
      }
      SameNodes(old(nodes), nodes);
      IfyDown(elm);
    }

    /** heap_insert. */
    method Insert(dat: int) returns (elm: HeapNode)
      requires Valid()
      modifies this, nodes`id
      ensures Valid() && fresh(elm) && Has(elm) && elm.key == genKey(dat, age) && elm.data == dat && age == old(age)
      ensures NodeBag(nodes) == old(NodeBag(nodes)) + multiset{elm}
      ensures Entries() == old(Entries()) + multiset{(genKey(dat, age), dat)}
    {
      hide Ordered, UpOk, KeysOf, Bag, NodeBag, EntriesOf, Grown;
      elm := new HeapNode(genKey(dat, age), |nodes|, dat);
      if size <= |nodes| {
        size := Grown(size);
      }
      Snoc(nodes, elm);
      InsertLast(KeysOf(nodes), elm.key);
      nodes := nodes + [elm];
      IfyUp(elm);
    }

    /** heap_delete: the last node takes the place of `elm`. */
    method Delete(elm: HeapNode) returns (data: int)
      requires Valid() && Has(elm)
      modifies this`nodes, nodes`id
      ensures Valid() && data == old(elm.data)
      ensures NodeBag(nodes) == old(NodeBag(nodes)) - multiset{elm}
      ensures Entries() == old(Entries()) - multiset{old((elm.key, elm.data))}
    {
      hide Ordered, HoleOk, KeysOf, Bag, NodeBag, Swapped;
      data := elm.data;
      ghost var ns, e, n := nodes, elm.id, |nodes| - 1;
      var lastNode := nodes[|nodes| - 1];
      assert lastNode in nodes && elm in nodes;
      SwapElement(lastNode, elm);
      SwapSize(ns, n, e);
      nodes := nodes[..|nodes| - 1];
      DeleteKeys(ns, e);
      DroppedNodes(ns, e);
      if elm != lastNode {
        Settle(lastNode);
      }
    }

    /** heap_extractmin: nothing if the heap is empty, else the data of a node with a least
        key. */
    method ExtractMin() returns (found: bool, data: int, ghost key: real)
      requires Valid()
      modifies this`nodes, nodes`id
      ensures Valid() && found == (old(nodes) != [])
      ensures !found ==> nodes == []
      ensures found ==> NodeBag(nodes) == old(NodeBag(nodes)) - multiset{old(nodes[0])}
      ensures found ==> (key, data) in old(Entries()) && Entries() == old(Entries()) - multiset{(key, data)}
      ensures found ==> forall e :: e in old(Entries()) ==> key <= e.0
    {
      if nodes == [] {
        return false, 0, 0.0;
      }
      hide Ordered, KeysOf, Bag, NodeBag;
      key := nodes[0].key;
      RootEntry(nodes);
      assert nodes[0].id == 0;
      data := Delete(nodes[0]);
      found := true;
    }

    /** heap_extractmin until the heap is empty: all entries come out, by ascending keys. */
    method Drain() returns (out: seq<int>, ghost entries: seq<(real, int)>)
      requires Valid()
      modifies this`nodes, nodes`id
      ensures Valid() && nodes == [] && multiset(entries) == old(Entries())
      ensures |out| == |entries| && forall i :: 0 <= i < |out| ==> out[i] == entries[i].1
      ensures forall i, j :: 0 <= i <= j < |entries| ==> entries[i].0 <= entries[j].0
    {
      hide Ordered, KeysOf, Bag, NodeBag, EntriesOf, AllExtract;
      out, entries := [], [];
      ghost var bags := [Entries()];
      assert AllExtract(bags, entries) by { NoneYet(bags); }
      while nodes != []
        invariant Valid() && forall i :: 0 <= i < |nodes| ==> nodes[i] in old(nodes)
        invariant AllExtract(bags, entries) && bags[|entries|] == Entries()
        invariant multiset(entries) + Entries() == old(Entries())
        invariant |out| == |entries| && forall i :: 0 <= i < |out| ==> out[i] == entries[i].1
        decreases |nodes|
      {
        ghost var ns, bag := nodes, Entries();
        var found, data;
        ghost var key;
        found, data, key := ExtractMin();
        OneNodeLess(nodes, ns, ns[0]);
        AmongAll(nodes, ns, old(nodes));
        OneMore(bags, entries, (key, data), Entries());
        bags := bags + [Entries()];
        out, entries := out + [data], entries + [(key, data)];
      }
      NoEntries(nodes);
      forall i, j | 0 <= i <= j < |entries| ensures entries[i].0 <= entries[j].0 {
        ExtractionsAscend(bags, entries, i, j);
      }
    }

    /** heap_update: the same effect as deleting the node and inserting the new data. */
    method Update(elm: HeapNode, dat: int) returns (was: int)
      requires Valid() && Has(elm)
      modifies this`nodes, nodes`id, elm`key, elm`data
      ensures Valid() && Has(elm) && was == old(elm.data) && elm.data == dat && elm.key == genKey(dat, age)
      ensures NodeBag(nodes) == old(NodeBag(nodes))
      ensures Entries() == old(Entries()) - multiset{old((elm.key, elm.data))} + multiset{(genKey(dat, age), dat)}
    {
      hide Ordered, HoleOk, KeysOf, EntriesOf;
      was := elm.data;
      ghost var ks, es, e := KeysOf(nodes), EntriesOf(nodes), elm.id;
      KeysAll(nodes);
      EntriesAll(nodes);
      ghost var bag := Bag(nodes);
      assert bag == multiset(es);
      elm.key := genKey(dat, age);
      elm.data := dat;
      Changed(nodes, ks, es, e);
      HoleOpens(ks, e, elm.key);
      Settle(elm);
    }
  }

  function Grown(size: nat): (n: nat)
    requires size > 0
    ensures n > size
  {
    if size > THRESHOLD then size * 3 / 2 else size * 2
  }

  lemma SwapSize<T>(s: seq<T>, i: nat, j: nat)
    requires i < |s| && j < |s|
    ensures |Swapped(s, i, j)| == |s|
  {
  }

  lemma InsertLast(ks: seq<real>, k: real)
    requires Ordered(ks)
    ensures UpOk(ks + [k], |ks|)
  {
  }

  /** The keys once the last node has moved to place `e`. */
  lemma DeleteKeys(ns: seq<HeapNode>, e: nat)
    requires e < |ns| && Ordered(KeysOf(ns))
    ensures e < |ns| - 1 ==> HoleOk(KeysOf(Swapped(ns, |ns| - 1, e)[..|ns| - 1]), e)
    ensures e == |ns| - 1 ==> Ordered(KeysOf(Swapped(ns, |ns| - 1, e)[..|ns| - 1]))
  {
    hide KeysOf, HoleOk, Ordered, Swapped;
    var n := |ns| - 1;
    SwapSize(ns, n, e);
    var ms := Swapped(ns, n, e)[..n];
    forall i | 0 <= i < n ensures KeysOf(ms)[i] == if i == e then KeysOf(ns)[n] else KeysOf(ns)[i] {
      MovedAt(ns, e, i);
      KeyAt(ms, i);
      KeyAt(ns, i);
      KeyAt(ns, n);
    }
    LastMoves(KeysOf(ns), KeysOf(ms), e);
  }

  lemma MovedAt<T>(s: seq<T>, e: nat, i: nat)
    requires e < |s| && i < |s| - 1
    ensures var n := |s| - 1; |Swapped(s, n, e)| == |s| && Swapped(s, n, e)[..n][i] == if i == e then s[n] else s[i]
  {
  }

  lemma LastMoves(ks: seq<real>, ks': seq<real>, e: nat)
    requires Ordered(ks) && e < |ks| == |ks'| + 1
    requires forall i :: 0 <= i < |ks'| ==> ks'[i] == if i == e then ks[|ks'|] else ks[i]
    ensures if e < |ks'| then HoleOk(ks', e) else Ordered(ks')
  {
    forall i | 0 < i < |ks'| && i != e && Parent(i) != e ensures ks'[Parent(i)] <= ks'[i] {
      assert ks[Parent(i)] <= ks[i];
    }
    if e < |ks'| {
      forall i | 0 < i < |ks'| && Parent(i) == e && e > 0 ensures ks'[Parent(e)] <= ks'[i] {
        assert ks[Parent(e)] <= ks[e] <= ks[i];
      }
    }
  }

  lemma MultisetSnoc<T>(s: seq<T>, x: T)
    ensures multiset(s + [x]) == multiset(s) + multiset{x}
  {
  }

  lemma Snoc(ns: seq<HeapNode>, elm: HeapNode)
    ensures KeysOf(ns + [elm]) == KeysOf(ns) + [elm.key]
    ensures Bag(ns + [elm]) == Bag(ns) + multiset{(elm.key, elm.data)} && NodeBag(ns + [elm]) == NodeBag(ns) + multiset{elm}
  {
    assert (ns + [elm])[..|ns|] == ns;
    MultisetSnoc(EntriesOf(ns), (elm.key, elm.data));
  }

  lemma Changed(ns: seq<HeapNode>, ks: seq<real>, es: seq<(real, int)>, e: nat)
    requires e < |ns| == |ks| == |es|
    requires forall i :: 0 <= i < |ns| && i != e ==> ns[i].key == ks[i] && (ns[i].key, ns[i].data) == es[i]
    ensures KeysOf(ns) == ks[e := ns[e].key] && Bag(ns) == multiset(es) - multiset{es[e]} + multiset{(ns[e].key, ns[e].data)}
  {
    hide KeysOf, EntriesOf;
    KeysAll(ns);
    EntriesAll(ns);
    assert EntriesOf(ns) == es[e := (ns[e].key, ns[e].data)];
  }

  lemma DroppedNodes(ns: seq<HeapNode>, e: nat)
    requires e < |ns|
    ensures var n := |ns| - 1; var ms := Swapped(ns, n, e)[..n];
      && NodeBag(ms) == NodeBag(ns) - multiset{ns[e]}
      && Bag(ms) == Bag(ns) - multiset{(ns[e].key, ns[e].data)}
      && forall i :: 0 <= i < n ==> ms[i] in ns
  {
    hide EntriesOf;
    var n := |ns| - 1;
    EntriesAll(ns);
    EntriesAll(Swapped(ns, n, e)[..n]);
    Dropped(ns, e);
    Dropped(EntriesOf(ns), e);
    assert EntriesOf(Swapped(ns, n, e)[..n]) == Swapped(EntriesOf(ns), n, e)[..n];
  }

  lemma Dropped<T>(s: seq<T>, e: nat)
    requires e < |s|
    ensures var n := |s| - 1; multiset(Swapped(s, n, e)[..n]) == multiset(s) - multiset{s[e]}
  {
    var n := |s| - 1;
    var t := Swapped(s, n, e);
    SwapMultiset(s, n, e);
    assert t[n] == s[e];
    hide Swapped;
    MultisetSnoc(t[..n], t[n]);
    assert t == t[..n] + [t[n]];
  }

  lemma RootEntry(ns: seq<HeapNode>)
    requires ns != [] && Ordered(KeysOf(ns))
    ensures (ns[0].key, ns[0].data) in Bag(ns)
    ensures forall e :: e in Bag(ns) ==> ns[0].key <= e.0
  {
    hide KeysOf, EntriesOf;
    KeysAll(ns);
    EntriesAll(ns);
    var es := EntriesOf(ns);
    assert es[0] in es;
    forall e | e in multiset(es) ensures ns[0].key <= e.0 {
      assert e in es;
      var i :| 0 <= i < |es| && es[i] == e;
      RootLeast(KeysOf(ns), i);
    }
  }

  lemma KidKeys(ns: seq<HeapNode>, e: nat, k: nat)
    requires e < |ns|
    requires if k == 0 then forall i :: 0 < i < |ns| ==> Parent(i) != e
             else k < |ns| && forall i :: 0 < i < |ns| && Parent(i) == e ==> ns[k].key <= ns[i].key
    ensures var ks := KeysOf(ns);
      && ks[e] == ns[e].key && (k != 0 ==> ks[k] == ns[k].key)
      && (k == 0 || ns[e].key <= ns[k].key ==> forall i {:trigger ks[i]} :: 0 < i < |ks| && Parent(i) == e ==> ks[e] <= ks[i])
      && (k != 0 ==> forall i {:trigger ks[i]} :: 0 < i < |ks| && Parent(i) == e ==> ks[k] <= ks[i])
  {
    hide KeysOf;
    KeysAll(ns);
  }

  lemma ParentLess(i: nat)
    requires i > 0
    ensures Parent(i) < i
  {
  }

  lemma SameNodes(a: seq<HeapNode>, b: seq<HeapNode>)
    requires NodeBag(a) == NodeBag(b)
    ensures forall n :: n in b ==> n in a
    ensures forall i :: 0 <= i < |b| ==> b[i] in a
  {
    forall n | n in b ensures n in a {
      assert n in multiset(b);
    }
  }

  lemma SwapMultiset<T>(s: seq<T>, i: nat, j: nat)
    requires i < |s| && j < |s|
    ensures multiset(Swapped(s, i, j)) == multiset(s)
  {
  }

  // ----- Repeated extraction -----

  lemma OneNodeLess(a: seq<HeapNode>, b: seq<HeapNode>, n: HeapNode)
    requires n in b && NodeBag(a) == NodeBag(b) - multiset{n}
    ensures |a| + 1 == |b| && forall i :: 0 <= i < |a| ==> a[i] in b
  {
    assert |multiset(a)| == |a| && |multiset(b)| == |b| && n in multiset(b);
    forall i | 0 <= i < |a| ensures a[i] in b {
      assert a[i] in multiset(a);
    }
  }

  lemma AmongAll(a: seq<HeapNode>, b: seq<HeapNode>, all: seq<HeapNode>)
    requires (forall i :: 0 <= i < |a| ==> a[i] in b) && forall i :: 0 <= i < |b| ==> b[i] in all
    ensures forall i :: 0 <= i < |a| ==> a[i] in all
  {
  }

  lemma NoEntries(ns: seq<HeapNode>)
    requires ns == []
    ensures Bag(ns) == multiset{}
  {
  }

  /** What ExtractMin promises of one call. */
  ghost predicate Extracts(before: multiset<(real, int)>, e: (real, int), after: multiset<(real, int)>) {
    e in before && after == before - multiset{e} && forall x :: x in before ==> e.0 <= x.0
  }

  /** Extraction after extraction. */
  ghost predicate AllExtract(bags: seq<multiset<(real, int)>>, out: seq<(real, int)>)
    ensures AllExtract(bags, out) ==> |bags| == |out| + 1
  {
    |bags| == |out| + 1 && forall k :: 0 <= k < |out| ==> Extracts(bags[k], out[k], bags[k + 1])
  }

  lemma NoneYet(bags: seq<multiset<(real, int)>>)
    requires |bags| == 1
    ensures AllExtract(bags, [])
  {
  }

  lemma OneMore(bags: seq<multiset<(real, int)>>, out: seq<(real, int)>, e: (real, int), after: multiset<(real, int)>)
    requires AllExtract(bags, out)
    requires var before := bags[|out|]; e in before && after == before - multiset{e} && forall x :: x in before ==> e.0 <= x.0
    ensures AllExtract(bags + [after], out + [e]) && multiset{e} + after == bags[|out|]
  {
    assert Extracts(bags[|out|], e, after);
  }

  /** Extracting again and again yields ascending keys. */
  lemma {:induction false} ExtractionsAscend(bags: seq<multiset<(real, int)>>, out: seq<(real, int)>, i: nat, j: nat)
    requires AllExtract(bags, out) && i <= j < |out|
    ensures out[i].0 <= out[j].0 && out[j] in bags[i]
    decreases j - i
  {
    assert Extracts(bags[i], out[i], bags[i + 1]);
    if i < j {
      ExtractionsAscend(bags, out, i + 1, j);
    }
  }
}
