/**
 The routing tree as a route table: what adding and deleting a route do to the table, and
 longest-prefix match after any run of additions and deletions.
 */
module RadixTable {
  import opened Basics
  import opened RadixTree
  import opened RadixMatch
  import opened RadixUpdate
  import opened RadixInvariant

  /** squid_rn_addroute refuses exactly duplicates and host routes to the sentinel keys. */
  ghost predicate Refused(top: Tree, r: Route) {
    r in Routes(top) || (r.mask.Host? && (AllZero(r.key) || AllOne(r.key)))
  }

  /** The top node keeps its bit: a first differing bit is never bit 0. */
  lemma DiffPastTop(w: nat, top: Tree, k: Bits)
    requires WFTop(w, top, {}) && |k| == w == |Search(top, k).key| && k != Search(top, k).key
    ensures FirstDiff(k, Search(top, k).key) > 0
  {
    PartsAtDiff(w, top, -1, k, FirstDiff(k, Search(top, k).key));
  }

  lemma AddRouteCorrect(w: nat, top: Tree, r: Route)
    requires WFTop(w, top, {}) && ValidRoute(w, r)
    ensures |Search(top, r.key).key| == w
    ensures var t := AddRoute(top, r.key, r.mask);
      && (t.None? <==> Refused(top, r))
      && (t.Some? ==> WFTop(w, t.value, {}) && Routes(t.value) == Routes(top) + {r})
  {
    SearchSpec(w, top, -1, {}, r.key);
    if Search(top, r.key).key == r.key {
      AddToChain(w, top, r);
    } else {
      AddNewKey(w, top, r);
    }
  }

  lemma AddToChain(w: nat, top: Tree, r: Route)
    requires WFTop(w, top, {}) && ValidRoute(w, r) && Search(top, r.key).key == r.key
    ensures var t := AddRoute(top, r.key, r.mask);
      && (t.None? <==> Refused(top, r))
      && (t.Some? ==> WFTop(w, t.value, {}) && Routes(t.value) == Routes(top) + {r})
  {
    var k := r.key;
    SearchSpec(w, top, -1, {}, k);
    LeafRoutesWithin(w, top, -1, {}, k);
    var leaf := Search(top, k);
    var q: int :| ChainOk(w, leaf, q, {});
    ChainInsertSpec(leaf.chain, r.mask);
    ChainHolds(w, leaf, q, r.mask);
    if ChainInsert(leaf.chain, r.mask).Some? {
      InsertDupWF(w, top, -1, k, r.mask);
      var t := SetChain(top, k, ChainInsert(leaf.chain, r.mask).value);
      if r.mask.Net? {
        LiftWF(w, t, -1, k, r.mask.len);
      } else {
        HostSettled(w, t, -1, r);
      }
    }
  }

  /** A chain has a mask iff the leaf has the route, or it is the sentinel's own. */
  lemma ChainHolds(w: nat, leaf: Tree, q: int, mask: Mask)
    requires leaf.Leaf? && ChainOk(w, leaf, q, {})
    ensures (exists i :: 0 <= i < |leaf.chain| && leaf.chain[i].mask == mask) <==>
            Route(leaf.key, mask) in Routes(leaf) || (mask.Host? && (AllZero(leaf.key) || AllOne(leaf.key)))
  {
    if i :| 0 <= i < |leaf.chain| && leaf.chain[i].mask == mask {
      assert i >= FirstRoute(leaf) ==> Route(leaf.key, mask) in Routes(leaf);
    }
    if leaf.root {
      assert leaf.chain[0].mask == Host;
    }
  }

  /** A host route has no annotation to wait for. */
  lemma {:induction false} HostSettled(w: nat, t: Tree, pb: int, r: Route)
    requires WF(w, t, pb, {r}) && r.mask.Host? && Unmarked(t, r.key, Host)
    ensures WF(w, t, pb, {})
  {
    KeysShape(w, t, pb, {r});
    if t.Node? {
      ChildrenApart(w, t, pb, {r}, r.key);
      assert Search(t, r.key) == Search(Taken(t, r.key), r.key);
      HostSettled(w, Taken(t, r.key), t.b, r);
      HostSpared(w, t, pb, r);
      assert MaskListOk(t.mk, Routes(t), pb, t.b, {});
    } else {
      assert Search(t, r.key).chain == t.chain;
    }
  }

  lemma HostSpared(w: nat, t: Tree, pb: int, r: Route)
    requires WF(w, t, pb, {r}) && t.Node?
    ensures WF(w, Spared(t, r.key), t.b, {})
  {
    KeysShape(w, t, pb, {r});
    MissElsewhere(w, Spared(t, r.key), t.b, {r}, {});
  }

  lemma AddNewKey(w: nat, top: Tree, r: Route)
    requires WFTop(w, top, {}) && ValidRoute(w, r) && Search(top, r.key).key != r.key && |Search(top, r.key).key| == w
    ensures var t := AddRoute(top, r.key, r.mask);
      !Refused(top, r) && t.Some? && WFTop(w, t.value, {}) && Routes(t.value) == Routes(top) + {r}
  {
    var k := r.key;
    SearchFreshKey(w, top, -1, k);
    AllOnesReached(w, top, k);
    DiffPastTop(w, top, k);
    var b := FirstDiff(k, Search(top, k).key);
    InsertLeafWF(w, top, -1, k, b, r.mask);
    var t := InsertLeaf(top, k, b, r.mask);
    if r.mask.Net? {
      LiftWF(w, t, -1, k, r.mask.len);
    } else {
      HostSettled(w, t, -1, r);
    }
  }

  /** What a deletion is to take out: the named net route, or, when no mask is given, the
      most specific route of the key; sentinels are never taken out. */
  ghost predicate Deletes(table: set<Route>, k: Bits, mask: Mask, r: Route) {
    && r in table && r.key == k
    && (mask.Net? ==> r.mask == mask)
    && (mask.Host? ==> !AllZero(k) && !AllOne(k) && forall s :: s in table && s.key == k ==> Rank(s) <= Rank(r))
  }

  lemma DeleteRouteCorrect(w: nat, top: Tree, k: Bits, mask: Mask)
    requires WFTop(w, top, {}) && |k| == w
    ensures |Search(top, k).chain| > 0
    ensures var d := DeleteRoute(top, k, mask);
      if d.Some? then
        Deletes(Routes(top), k, mask, d.value.1) && WFTop(w, d.value.0, {}) && Routes(d.value.0) == Routes(top) - {d.value.1}
      else
        forall r :: !Deletes(Routes(top), k, mask, r)
  {
    SearchSpec(w, top, -1, {}, k);
    var leaf := Search(top, k);
    if leaf.key != k {
      SearchFreshKey(w, top, -1, k);
    } else {
      var i := DeletePosition(leaf.chain, mask);
      if i.None? || (leaf.root && i.value == 0) {
        DeleteNothing(w, top, k, mask);
      } else {
        DeleteAt(w, top, k, mask, i.value);
      }
    }
  }

  lemma DeleteNothing(w: nat, top: Tree, k: Bits, mask: Mask)
    requires WFTop(w, top, {}) && Search(top, k).key == k && |k| == w
    requires var i := DeletePosition(Search(top, k).chain, mask); i.None? || (Search(top, k).root && i.value == 0)
    ensures forall r :: !Deletes(Routes(top), k, mask, r)
  {
    SearchSpec(w, top, -1, {}, k);
    LeafRoutesWithin(w, top, -1, {}, k);
    var leaf := Search(top, k);
    var q: int :| ChainOk(w, leaf, q, {});
  }

  /** The first route of a chain is the most specific of its key. */
  lemma ChainHeadBest(w: nat, leaf: Tree, q: int, i: nat)
    requires leaf.Leaf? && ChainOk(w, leaf, q, {}) && i == FirstRoute(leaf) < |leaf.chain|
    ensures forall s :: s in Routes(leaf) ==> Rank(s) <= Rank(Route(leaf.key, leaf.chain[i].mask))
  {
    forall s | s in Routes(leaf) ensures Rank(s) <= Rank(Route(leaf.key, leaf.chain[i].mask)) {
      var j :| FirstRoute(leaf) <= j < |leaf.chain| && s == Route(leaf.key, leaf.chain[j].mask);
      assert ValidRoute(w, Route(leaf.key, leaf.chain[j].mask));
      assert i == j || Before(leaf.chain[i].mask, leaf.chain[j].mask);
    }
  }

  lemma DeleteAt(w: nat, top: Tree, k: Bits, mask: Mask, i: nat)
    requires WFTop(w, top, {}) && Search(top, k).key == k && |k| == w
    requires |Search(top, k).chain| > 0 && DeletePosition(Search(top, k).chain, mask) == Some(i)
    requires !(Search(top, k).root && i == 0)
    ensures var d := DeleteRoute(top, k, mask);
      d.Some? && Deletes(Routes(top), k, mask, d.value.1) && WFTop(w, d.value.0, {}) && Routes(d.value.0) == Routes(top) - {d.value.1}
  {
    var leaf := Search(top, k);
    var r := Route(k, leaf.chain[i].mask);
    SearchSpec(w, top, -1, {}, k);
    LeafRoutesWithin(w, top, -1, {}, k);
    var q: int :| ChainOk(w, leaf, q, {});
    assert r in Routes(leaf);
    if mask.Host? {
      ChainHeadBest(w, leaf, q, i);
    }
    var t := if r.mask.Net? && leaf.chain[i].lifted then Unlift(top, k, r.mask.len) else top;
    DeleteUnlifted(w, top, k, i);
    if |leaf.chain| > 1 {
      RemoveEntryWF(w, t, -1, k, i);
    } else {
      assert Routes(leaf) == {r};
      RemoveLeafWF(w, t, -1, r);
      TopStays(w, t, r);
    }
  }

  /** After the first half of a deletion the route is there but on no mask list. */
  lemma DeleteUnlifted(w: nat, top: Tree, k: Bits, i: nat)
    requires WFTop(w, top, {}) && Search(top, k).key == k && FirstRoute(Search(top, k)) <= i < |Search(top, k).chain|
    requires Route(k, Search(top, k).chain[i].mask) in Routes(top)
    ensures var e := Search(top, k).chain[i];
      var t := if e.mask.Net? && e.lifted then Unlift(top, k, e.mask.len) else top;
      WFTop(w, t, {Route(k, e.mask)}) && Keys(t) == Keys(top) && Routes(t) == Routes(top) && Search(t, k) == Search(top, k)
  {
    var e := Search(top, k).chain[i];
    if e.mask.Net? {
      UnliftWF(w, top, -1, k, e.mask.len);
      if !e.lifted {
        UnliftUnlifted(w, top, -1, k, i);
      }
    } else {
      RelaxWF(w, top, -1, Route(k, e.mask));
    }
  }

  /** A leaf that goes together with its parent is never a child of the top node. */
  lemma TopStays(w: nat, t: Tree, r: Route)
    requires WFTop(w, t, {r}) && r.key in Keys(t) && !Search(t, r.key).root && WF(w, RemoveLeaf(t, r.key), -1, {})
    requires Keys(RemoveLeaf(t, r.key)) == Keys(t) - {r.key}
    ensures WFTop(w, RemoveLeaf(t, r.key), {})
  {
    KeysShape(w, t, -1, {r});
    var z :| z in Keys(t) && AllZero(z);
    var o :| o in Keys(t) && AllOne(o);
    assert !z[0] && o[0];
    LeafRoutesWithin(w, t, -1, {r}, r.key);
    var q: int :| ChainOk(w, Search(t, r.key), q, {r});
    assert r.key != z && r.key != o;
    assert z in Keys(t.l) && o in Keys(t.r);
    ChildrenApart(w, t, -1, {r}, r.key);
  }

  // ----- Runs -----

  /** squid_rn_inithead: a top node over the two sentinel leaves. */
  function InitTree(w: nat): Tree {
    var sentinel := [Entry(Host, false)];
    Node(0, [], Leaf(seq(w, _ => false), true, sentinel), Leaf(seq(w, _ => true), true, sentinel))
  }

  lemma InitTreeWF(w: nat)
    requires w > 0
    ensures WFTop(w, InitTree(w), {}) && Routes(InitTree(w)) == {}
  {
    var t := InitTree(w);
    assert AllZero(t.l.key) && AllOne(t.r.key);
    assert t.l.key in Keys(t) && t.r.key in Keys(t);
    assert WF(w, t.l, 0, {}) && WF(w, t.r, 0, {});
    assert forall k, k' :: k in Keys(t) && k' in Keys(t) ==> k[..0] == k'[..0];
  }

  datatype Op = Add(r: Route) | Delete(key: Bits, mask: Mask)

  ghost predicate ValidOp(w: nat, op: Op) {
    match op
    case Add(r) => ValidRoute(w, r)
    case Delete(k, _) => |k| == w
  }

  /** The same step on a plain set of routes. */
  ghost function TableStep(table: set<Route>, op: Op): set<Route> {
    match op
    case Add(r) => if r.mask.Host? && (AllZero(r.key) || AllOne(r.key)) then table else table + {r}
    case Delete(k, mask) => set r | r in table && !Deletes(table, k, mask, r)
  }

  ghost function TableRun(ops: seq<Op>): set<Route> {
    if ops == [] then {} else TableStep(TableRun(ops[..|ops| - 1]), ops[|ops| - 1])
  }

  /** One call on the tree; a refused call leaves it alone. */
  ghost function TreeStep(w: nat, t: Tree, op: Op): Tree
    requires WFTop(w, t, {}) && ValidOp(w, op)
  {
    match op
    case Add(r) =>
      AddRouteCorrect(w, t, r);
      var t' := AddRoute(t, r.key, r.mask);
      if t'.None? then t else t'.value
    case Delete(k, mask) =>
      DeleteRouteCorrect(w, t, k, mask);
      var d := DeleteRoute(t, k, mask);
      if d.None? then t else d.value.0
  }

  /** At most one route answers a deletion. */
  lemma DeletesOne(w: nat, table: set<Route>, k: Bits, mask: Mask, r: Route, s: Route)
    requires |k| == w && forall x :: x in table ==> ValidRoute(w, x)
    requires Deletes(table, k, mask, r) && Deletes(table, k, mask, s)
    ensures r == s
  {
    assert mask.Host? ==> Rank(r) == Rank(s);
  }

  lemma TreeStepCorrect(w: nat, t: Tree, op: Op)
    requires WFTop(w, t, {}) && ValidOp(w, op)
    ensures WFTop(w, TreeStep(w, t, op), {})
    ensures Routes(TreeStep(w, t, op)) == TableStep(Routes(t), op)
  {
    match op
    case Add(r) =>
      AddRouteCorrect(w, t, r);
    case Delete(k, mask) =>
      DeleteRouteCorrect(w, t, k, mask);
      KeysShape(w, t, -1, {});
      forall r, s | Deletes(Routes(t), k, mask, r) && Deletes(Routes(t), k, mask, s) ensures r == s {
        DeletesOne(w, Routes(t), k, mask, r, s);
      }
  }

  ghost function TreeRun(w: nat, ops: seq<Op>): (t: Tree)
    requires w > 0 && forall op :: op in ops ==> ValidOp(w, op)
    ensures WFTop(w, t, {}) && Routes(t) == TableRun(ops)
  {
    if ops == [] then
      InitTreeWF(w);
      InitTree(w)
    else
      var n := |ops| - 1;
      assert ops[n] in ops && forall op :: op in ops[..n] ==> op in ops;
      var t := TreeRun(w, ops[..n]);
      TreeStepCorrect(w, t, ops[n]);
      TreeStep(w, t, ops[n])
  }

  /**
   Longest-prefix match over every run: whatever routes were added and deleted before, a
   lookup answers as a scan of the resulting table would, except for the all-ones key
   under the condition of MatchIsLongestPrefix.
   */
  lemma RunMatchesTable(w: nat, ops: seq<Op>, v: Bits)
    requires w > 0 && |v| == w && forall op :: op in ops ==> ValidOp(w, op)
    ensures var t, table := TreeRun(w, ops), TableRun(ops);
      && |Search(t, v).key| == w && |Search(t, v).chain| > 0
      && (AgreesWithTable(table, v, Match(w, t, v)) <==>
            !AllOne(v) || Route(v, Net(w)) in table || (forall r :: r in table ==> !Covers(r, v)))
  {
    MatchIsLongestPrefix(w, TreeRun(w, ops), v);
  }

  /** The exception is real: with 255.0.0.0/8 as the only route (here, one bit of two), the
      all-ones key is covered and the lookup still reports the sentinel. */
  lemma AllOnesMissed()
    ensures var r := Route([true, false], Net(1)); var ops, v := [Add(r)], [true, true];
      && (forall op :: op in ops ==> ValidOp(2, op))
      && Covers(r, v) && r in TableRun(ops)
      && var t := TreeRun(2, ops);
         |Search(t, v).key| == 2 && |Search(t, v).chain| > 0 && !AgreesWithTable(TableRun(ops), v, Match(2, t, v))
  {
    var r := Route([true, false], Net(1));
    var ops := [Add(r)];
    var v := [true, true];
    assert ops[..0] == [] && TableRun(ops) == TableStep(TableRun([]), Add(r)) == {r};
    RunMatchesTable(2, ops, v);
    assert AllOne(v) && Route(v, Net(2)) !in TableRun(ops);
    assert r.key[..1] == v[..1];
  }
}
