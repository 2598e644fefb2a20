/**
 Every step of an insertion or a deletion in the routing tree keeps the tree invariant.
 */
module RadixInvariant {
  import opened RadixTree
  import opened RadixMatch
  import opened RadixUpdate

  // ----- Subtrees that an operation does not touch -----

  /** `miss` matters only through routes whose key is in the tree. */
  lemma {:induction false} MissElsewhere(w: nat, t: Tree, pb: int, miss: set<Route>, miss': set<Route>)
    requires WF(w, t, pb, miss)
    requires forall r :: r in miss + miss' ==> r.key !in Keys(t)
    ensures WF(w, t, pb, miss')
  {
    KeysShape(w, t, pb, miss);
    if t.Node? {
      MissElsewhere(w, t.l, t.b, miss, miss');
      MissElsewhere(w, t.r, t.b, miss, miss');
      assert Routes(t) - miss == Routes(t) - miss';
    }
  }

  /** The two children of a node have no key in common. */
  lemma ChildrenApart(w: nat, t: Tree, pb: int, miss: set<Route>, k: Bits)
    requires WF(w, t, pb, miss) && t.Node?
    ensures k in Keys(t.l) ==> !Bit(k, t.b) && k !in Keys(t.r)
    ensures k in Keys(t.r) ==> Bit(k, t.b) && k !in Keys(t.l)
    ensures forall r :: r in Routes(t) && r.key == k ==> r in Routes(if Bit(k, t.b) then t.r else t.l)
  {
    KeysShape(w, t.l, t.b, miss);
    KeysShape(w, t.r, t.b, miss);
  }

  /** Which routes the mask list of a node with this bit and parent bit is about. */
  ghost predicate SameToAnnotate(rs: set<Route>, miss: set<Route>, rs': set<Route>, miss': set<Route>, pb: int, b: int) {
    forall r: Route :: r.mask.Net? && pb < r.mask.len <= b ==> (r in rs - miss <==> r in rs' - miss')
  }

  /** A node whose taken child changed stays sound if the keys still fit and its mask list
      is about the same routes. */
  lemma TakenRebuilt(w: nat, t: Tree, pb: int, miss: set<Route>, k: Bits, c: Tree, miss': set<Route>)
    requires WF(w, t, pb, miss) && t.Node?
    requires WF(w, c, t.b, miss') && WF(w, Spared(t, k), t.b, miss')
    requires forall k' :: k' in Keys(c) ==> Bit(k', t.b) == Bit(k, t.b)
    requires Agree(Keys(Spared(t, k)) + Keys(c), t.b)
    requires SameToAnnotate(Routes(t), miss, Routes(Spared(t, k)) + Routes(c), miss', pb, t.b)
    ensures WF(w, WithTaken(t, k, c), pb, miss')
  {
    var t' := WithTaken(t, k, c);
    assert Routes(t') == Routes(Spared(t, k)) + Routes(c);
    assert Keys(t') == Keys(Spared(t, k)) + Keys(c);
    assert MaskListOk(t.mk, Routes(t'), pb, t.b, miss');
  }

  lemma AnnotateUnion(o: set<Route>, c: set<Route>, miss: set<Route>, c': set<Route>, miss': set<Route>, pb: int, b: int, k: Bits)
    requires SameToAnnotate(c, miss, c', miss', pb, b)
    requires (forall r :: r in o ==> r.key != k) && (forall r :: r in miss + miss' ==> r.key == k)
    ensures SameToAnnotate(o + c, miss, o + c', miss', pb, b)
  {
  }

  lemma AgreeSubset(ks: set<Bits>, ks': set<Bits>, b: nat)
    requires Agree(ks, b) && ks' <= ks
    ensures Agree(ks', b)
  {
  }

  /** The same when only routes of key `k` have changed below. */
  lemma PathStep(w: nat, t: Tree, pb: int, miss: set<Route>, k: Bits, c: Tree, miss': set<Route>)
    requires WF(w, t, pb, miss) && t.Node? && WF(w, c, t.b, miss')
    requires Keys(c) <= Keys(Taken(t, k)) + {k} && k !in Keys(Spared(t, k)) && Agree(Keys(t) + {k}, t.b)
    requires forall r :: r in miss + miss' ==> r.key == k
    requires SameToAnnotate(Routes(Taken(t, k)), miss, Routes(c), miss', pb, t.b)
    ensures WF(w, WithTaken(t, k, c), pb, miss')
  {
    WithTakenParts(t, k, c);
    KeysShape(w, Spared(t, k), t.b, miss);
    MissElsewhere(w, Spared(t, k), t.b, miss, miss');
    AnnotateUnion(Routes(Spared(t, k)), Routes(Taken(t, k)), miss, Routes(c), miss', pb, t.b, k);
    AgreeSubset(Keys(t) + {k}, Keys(Spared(t, k)) + Keys(c), t.b);
    assert forall k' :: k' in Keys(c) ==> Bit(k', t.b) == Bit(k, t.b);
    TakenRebuilt(w, t, pb, miss, k, c, miss');
  }

  lemma WithTakenParts(t: Tree, k: Bits, c: Tree)
    requires t.Node?
    ensures Keys(t) == Keys(Spared(t, k)) + Keys(Taken(t, k))
    ensures Routes(t) == Routes(Spared(t, k)) + Routes(Taken(t, k))
    ensures Keys(WithTaken(t, k, c)) == Keys(Spared(t, k)) + Keys(c)
    ensures Routes(WithTaken(t, k, c)) == Routes(Spared(t, k)) + Routes(c)
    ensures Search(WithTaken(t, k, c), k) == Search(c, k)
    ensures Search(t, k) == Search(Taken(t, k), k)
  {
  }

  // ----- Replacing one chain -----

  /** Replacing the chain at `k` is sound when the new chain is sound and offers the same
      routes for annotation. */
  lemma {:induction false} SetChainWF(w: nat, t: Tree, pb: int, miss: set<Route>, k: Bits, leaf': Tree, miss': set<Route>)
    requires WF(w, t, pb, miss) && k in Keys(t)
    requires forall r :: r in miss + miss' ==> r.key == k
    requires leaf'.Leaf? && leaf'.key == k && leaf'.root == Search(t, k).root
    requires Routes(Search(t, k)) - miss == Routes(leaf') - miss'
    requires forall q: int :: ChainOk(w, Search(t, k), q, miss) ==> ChainOk(w, leaf', q, miss')
    ensures WF(w, SetChain(t, k, leaf'.chain), pb, miss')
    ensures Keys(SetChain(t, k, leaf'.chain)) == Keys(t)
    ensures Routes(SetChain(t, k, leaf'.chain)) == (Routes(t) - Routes(Search(t, k))) + Routes(leaf')
  {
    if t.Leaf? {
      assert SetChain(t, k, leaf'.chain) == leaf';
    } else {
      ChildrenApart(w, t, pb, miss, k);
      SetChainWF(w, Taken(t, k), t.b, miss, k, leaf', miss');
      SetChainStep(w, t, pb, miss, k, leaf', miss', SetChain(Taken(t, k), k, leaf'.chain));
    }
  }

  lemma SetChainStep(w: nat, t: Tree, pb: int, miss: set<Route>, k: Bits, leaf': Tree, miss': set<Route>, c: Tree)
    requires WF(w, t, pb, miss) && t.Node? && k in Keys(t) && leaf'.Leaf? && leaf'.key == k
    requires forall r :: r in miss + miss' ==> r.key == k
    requires WF(w, c, t.b, miss') && Keys(c) == Keys(Taken(t, k))
    requires Routes(c) == (Routes(Taken(t, k)) - Routes(Search(t, k))) + Routes(leaf')
    requires Routes(Search(t, k)) - miss == Routes(leaf') - miss'
    ensures WF(w, WithTaken(t, k, c), pb, miss') && Keys(WithTaken(t, k, c)) == Keys(t)
    ensures Routes(WithTaken(t, k, c)) == (Routes(t) - Routes(Search(t, k))) + Routes(leaf')
  {
    ChildrenApart(w, t, pb, miss, k);
    KeysShape(w, Spared(t, k), t.b, miss);
    WithTakenParts(t, k, c);
    LeafRoutesWithin(w, Taken(t, k), t.b, miss, k);
    var o, taken, leaf := Routes(Spared(t, k)), Routes(Taken(t, k)), Routes(Search(t, k));
    LeafKey(leaf');
    LeafKey(Search(t, k));
    assert Agree(Keys(t) + {k}, t.b) by { assert Keys(t) + {k} == Keys(t); }
    hide WF, Search, ChainOk, Routes, Keys, Agree;
    OneKeyReplaced(o, taken, leaf, Routes(leaf'), miss, miss', k);
    PathStep(w, t, pb, miss, k, c, miss');
    UnionReplaced(o, taken, leaf, Routes(leaf'));
  }

  lemma LeafKey(leaf: Tree)
    requires leaf.Leaf?
    ensures forall r :: r in Routes(leaf) ==> r.key == leaf.key
  {
  }

  lemma UnionReplaced(o: set<Route>, c: set<Route>, leaf: set<Route>, leaf': set<Route>)
    requires o !! leaf
    ensures o + ((c - leaf) + leaf') == ((o + c) - leaf) + leaf'
  {
  }

  /** Exchanging the routes of key `k` leaves every other route as it was. */
  lemma OneKeyReplaced(o: set<Route>, c: set<Route>, leaf: set<Route>, leaf': set<Route>,
                       miss: set<Route>, miss': set<Route>, k: Bits)
    requires forall r :: r in miss + miss' + leaf + leaf' ==> r.key == k
    requires forall r :: r in o ==> r.key != k
    requires forall r :: r in c && r.key == k ==> r in leaf
    requires leaf <= c && leaf - miss == leaf' - miss'
    ensures c - miss == ((c - leaf) + leaf') - miss'
    ensures o !! leaf
  {
    forall r: Route ensures r in c - miss <==> r in ((c - leaf) + leaf') - miss' {
      assert r in leaf - miss <==> r in leaf' - miss';
    }
  }

  lemma {:induction false} LeafRoutesWithin(w: nat, t: Tree, pb: int, miss: set<Route>, k: Bits)
    requires WF(w, t, pb, miss) && k in Keys(t)
    ensures Search(t, k).key == k && Routes(Search(t, k)) <= Routes(t)
    ensures forall r :: r in Routes(t) && r.key == k ==> r in Routes(Search(t, k))
    ensures exists q: int :: ChainOk(w, Search(t, k), q, miss)
  {
    if t.Node? {
      ChildrenApart(w, t, pb, miss, k);
      LeafRoutesWithin(w, if Bit(k, t.b) then t.r else t.l, t.b, miss, k);
    } else {
      assert ChainOk(w, t, pb, miss);
    }
  }

  // ----- Duped-key chains -----

  lemma {:induction false} ChainInsertSpec(chain: seq<Entry>, mask: Mask)
    requires forall i, j :: 0 <= i < j < |chain| ==> Before(chain[i].mask, chain[j].mask)
    ensures var c := ChainInsert(chain, mask);
      && (c.None? <==> exists i :: 0 <= i < |chain| && chain[i].mask == mask)
      && (c.Some? ==>
            && (forall i, j :: 0 <= i < j < |c.value| ==> Before(c.value[i].mask, c.value[j].mask))
            && (forall e :: e in c.value <==> e in chain || e == Entry(mask, false))
            && (chain != [] && chain[0].mask.Host? ==> c.value[0] == chain[0])
            && |c.value| == |chain| + 1)
  {
    if chain != [] && chain[0].mask != mask {
      if mask.Host? || (chain[0].mask.Net? && mask.len > chain[0].mask.len) {
        forall i | 0 <= i < |chain| ensures Before(mask, chain[i].mask) {
          assert i == 0 || Before(chain[0].mask, chain[i].mask);
        }
      } else {
        ChainInsertSpec(chain[1..], mask);
        var rest := ChainInsert(chain[1..], mask);
        assert chain == [chain[0]] + chain[1..];
        if rest.Some? {
          var c := [chain[0]] + rest.value;
          forall j | 0 < j < |c| ensures Before(c[0].mask, c[j].mask) {
            assert c[j] in rest.value;
            if c[j] in chain[1..] {
              var jj :| 0 <= jj < |chain[1..]| && chain[1..][jj] == c[j];
              assert Before(chain[0].mask, chain[jj + 1].mask);
            }
          }
        }
      }
    }
  }

  lemma RoutesOfChain(leaf: Tree, leaf': Tree, mask: Mask)
    requires leaf.Leaf? && leaf'.Leaf? && leaf.key == leaf'.key && leaf.root == leaf'.root
    requires leaf.chain != [] && leaf'.chain != [] && (leaf.root ==> leaf.chain[0] == leaf'.chain[0])
    requires forall e :: e in leaf'.chain <==> e in leaf.chain || e == Entry(mask, false)
    requires forall i, j :: 0 <= i < j < |leaf.chain| ==> Before(leaf.chain[i].mask, leaf.chain[j].mask)
    requires forall i, j :: 0 <= i < j < |leaf'.chain| ==> Before(leaf'.chain[i].mask, leaf'.chain[j].mask)
    requires leaf.root ==> leaf.chain[0].mask.Host? && mask.Net?
    ensures Routes(leaf') == Routes(leaf) + {Route(leaf.key, mask)}
  {
    forall r | r in Routes(leaf') ensures r in Routes(leaf) + {Route(leaf.key, mask)} {
      var i :| FirstRoute(leaf') <= i < |leaf'.chain| && r == Route(leaf.key, leaf'.chain[i].mask);
      assert leaf'.chain[i] in leaf'.chain;
      if leaf'.chain[i] in leaf.chain {
        var j :| 0 <= j < |leaf.chain| && leaf.chain[j] == leaf'.chain[i];
      }
    }
    forall r | r in Routes(leaf) ensures r in Routes(leaf') {
      var i :| FirstRoute(leaf) <= i < |leaf.chain| && r == Route(leaf.key, leaf.chain[i].mask);
      assert leaf.chain[i] in leaf.chain;
      var j :| 0 <= j < |leaf'.chain| && leaf'.chain[j] == leaf.chain[i];
    }
    assert Entry(mask, false) in leaf'.chain;
    var j :| 0 <= j < |leaf'.chain| && leaf'.chain[j] == Entry(mask, false);
  }

  /** Inserting into an existing chain adds the route, which is then without annotation. */
  lemma InsertDupWF(w: nat, t: Tree, pb: int, k: Bits, mask: Mask)
    requires WF(w, t, pb, {}) && k in Keys(t) && ValidRoute(w, Route(k, mask))
    requires ChainInsert(Search(t, k).chain, mask).Some?
    ensures var r := Route(k, mask); var chain := ChainInsert(Search(t, k).chain, mask).value; var t' := SetChain(t, k, chain);
      && WF(w, t', pb, {r}) && Keys(t') == Keys(t) && Routes(t') == Routes(t) + {r}
      && Unmarked(t', k, mask)
  {
    var r := Route(k, mask);
    LeafRoutesWithin(w, t, pb, {}, k);
    var leaf := Search(t, k);
    var q0: int :| ChainOk(w, leaf, q0, {});
    var leaf' := leaf.(chain := ChainInsert(leaf.chain, mask).value);
    DupRoutes(w, leaf, q0, mask);
    forall q: int | ChainOk(w, leaf, q, {}) ensures ChainOk(w, leaf', q, {r}) {
      ChainInsertOk(w, leaf, q, mask);
    }
    SetChainWF(w, t, pb, {}, k, leaf', {r});
    SetChainSearch(t, k, leaf'.chain);
  }

  /** The routes of a chain after an insertion; the new entry is not lifted. */
  lemma DupRoutes(w: nat, leaf: Tree, q: int, mask: Mask)
    requires leaf.Leaf? && ChainOk(w, leaf, q, {}) && ChainInsert(leaf.chain, mask).Some?
    ensures var leaf' := leaf.(chain := ChainInsert(leaf.chain, mask).value);
      && Routes(leaf') == Routes(leaf) + {Route(leaf.key, mask)} && Route(leaf.key, mask) !in Routes(leaf)
      && Unmarked(leaf', leaf.key, mask)
  {
    ChainInsertSpec(leaf.chain, mask);
    var leaf' := leaf.(chain := ChainInsert(leaf.chain, mask).value);
    assert leaf.root ==> mask.Net?;
    RoutesOfChain(leaf, leaf', mask);
    forall i | 0 <= i < |leaf'.chain| && leaf'.chain[i].mask == mask ensures !leaf'.chain[i].lifted {
      assert leaf'.chain[i] in leaf'.chain;
    }
  }

  lemma ChainInsertOk(w: nat, leaf: Tree, q: int, mask: Mask)
    requires leaf.Leaf? && ChainOk(w, leaf, q, {}) && ValidRoute(w, Route(leaf.key, mask))
    requires ChainInsert(leaf.chain, mask).Some?
    ensures ChainOk(w, leaf.(chain := ChainInsert(leaf.chain, mask).value), q, {Route(leaf.key, mask)})
  {
    ChainInsertSpec(leaf.chain, mask);
    var chain := ChainInsert(leaf.chain, mask).value;
    forall i | 0 <= i < |chain|
      ensures ValidRoute(w, Route(leaf.key, chain[i].mask))
      ensures chain[i].mask != mask ==> (chain[i].lifted <==> chain[i].mask.Net? && chain[i].mask.len <= q)
    {
      assert chain[i] in chain;
      if chain[i] in leaf.chain {
        var j :| 0 <= j < |leaf.chain| && leaf.chain[j] == chain[i];
      }
    }
  }

  /** The entry for `mask` in the chain reached by `k` has no annotation recorded. */
  ghost predicate Unmarked(t: Tree, k: Bits, mask: Mask) {
    var chain := Search(t, k).chain;
    forall i :: 0 <= i < |chain| && chain[i].mask == mask ==> !chain[i].lifted
  }

  lemma {:induction false} SetChainSearch(t: Tree, k: Bits, chain: seq<Entry>)
    ensures Search(SetChain(t, k, chain), k) == Leaf(Search(t, k).key, Search(t, k).root, chain)
  {
    if t.Node? {
      SetChainSearch(if Bit(k, t.b) then t.r else t.l, k, chain);
    }
  }

  // ----- A new leaf and its parent -----

  lemma {:induction false} PromoteChainFlags(key: Bits, chain: seq<Entry>, b: nat)
    ensures var (mk, chain') := PromoteChain(key, chain, b);
      && |chain'| == |chain|
      && (forall i :: 0 <= i < |chain| ==> chain'[i].mask == chain[i].mask)
      && (forall i :: 0 <= i < |chain| ==>
            (chain'[i].lifted <==> chain[i].lifted || (chain[i].mask.Net? && chain[i].mask.len <= b)))
  {
    if chain != [] {
      PromoteChainFlags(key, chain[1..], b);
    }
  }

  /** The annotations made are those of the unlifted masks within reach, in chain order. */
  lemma {:induction false} PromoteChainSpec(key: Bits, chain: seq<Entry>, b: nat)
    requires forall i, j :: 0 <= i < j < |chain| ==> Before(chain[i].mask, chain[j].mask)
    ensures var mk := PromoteChain(key, chain, b).0;
      && Descending(mk)
      && (forall a :: a in mk ==> Entry(Net(a.len), false) in chain && a.key == key && a.len <= b)
      && (forall e :: e in chain && e.mask.Net? && e.mask.len <= b && !e.lifted ==> Ann(key, e.mask.len) in mk)
  {
    if chain != [] {
      PromoteChainSpec(key, chain[1..], b);
      var mk := PromoteChain(key, chain[1..], b).0;
      var e0 := chain[0];
      assert forall e :: e in chain <==> e == e0 || e in chain[1..];
      if e0.mask.Net? && e0.mask.len <= b && !e0.lifted {
        forall a | a in mk ensures e0.mask.len > a.len {
          var j :| 0 <= j < |chain[1..]| && chain[1..][j] == Entry(Net(a.len), false);
          assert Before(chain[0].mask, chain[j + 1].mask);
        }
        var mk' := [Ann(key, e0.mask.len)] + mk;
        assert forall a :: a in mk' <==> a == Ann(key, e0.mask.len) || a in mk;
      }
    }
  }

  lemma PromoteLeafWF(w: nat, x: Tree, pb: int, b: nat)
    requires x.Leaf? && ChainOk(w, x, pb, {}) && pb < b
    ensures var (mk, x') := Promote(x, b);
      && x'.Leaf? && ChainOk(w, x', b, {}) && Keys(x') == Keys(x) && Routes(x') == Routes(x)
  {
    PromoteChainFlags(x.key, x.chain, b);
    var x' := Promote(x, b).1;
    assert forall i :: 0 <= i < |x.chain| ==> x'.chain[i].mask == x.chain[i].mask;
  }

  lemma PromoteLeafList(w: nat, x: Tree, pb: int, b: nat)
    requires x.Leaf? && ChainOk(w, x, pb, {}) && pb < b
    ensures MaskListOk(Promote(x, b).0, Routes(x), pb, b, {})
  {
    PromoteChainSpec(x.key, x.chain, b);
    var mk := Promote(x, b).0;
    forall a | a in mk ensures Route(a.key, Net(a.len)) in Routes(x) && pb < a.len {
      var i :| 0 <= i < |x.chain| && x.chain[i] == Entry(Net(a.len), false);
      assert Route(x.key, x.chain[i].mask) in Routes(x);
    }
    forall r | r in Routes(x) && r.mask.Net? && pb < r.mask.len <= b ensures Ann(r.key, r.mask.len) in mk {
      var i :| FirstRoute(x) <= i < |x.chain| && r == Route(x.key, x.chain[i].mask);
      assert x.chain[i] in x.chain;
    }
  }

  lemma MkSplitSpec(mk: seq<Ann>, b: nat)
    requires Descending(mk)
    ensures var i := MkSplit(mk, b);
      && Descending(mk[..i]) && Descending(mk[i..])
      && (forall a :: a in mk[..i] <==> a in mk && a.len > b)
      && (forall a :: a in mk[i..] <==> a in mk && a.len <= b)
  {
    var i := MkSplit(mk, b);
    DescendingParts(mk, i);
    forall j | i <= j < |mk| ensures mk[j].len <= b {
      assert j == i || mk[i].len > mk[j].len;
    }
    hide Descending, MkSplit;
    SplitMembers(mk, i, b);
  }

  lemma DescendingParts(mk: seq<Ann>, i: nat)
    requires Descending(mk) && i <= |mk|
    ensures Descending(mk[..i]) && Descending(mk[i..])
  {
  }

  lemma SplitMembers(mk: seq<Ann>, i: nat, b: nat)
    requires i <= |mk| && (forall j :: 0 <= j < i ==> mk[j].len > b) && forall j :: i <= j < |mk| ==> mk[j].len <= b
    ensures forall a :: a in mk[..i] <==> a in mk && a.len > b
    ensures forall a :: a in mk[i..] <==> a in mk && a.len <= b
  {
    forall a | a in mk ensures a.len > b ==> a in mk[..i] {
      var j :| 0 <= j < |mk| && mk[j] == a;
      assert j < i ==> mk[..i][j] == a;
    }
    forall a | a in mk ensures a.len <= b ==> a in mk[i..] {
      var j :| 0 <= j < |mk| && mk[j] == a;
      assert j >= i ==> mk[i..][j - i] == a;
    }
  }

  lemma PromoteWF(w: nat, x: Tree, pb: int, b: nat)
    requires WF(w, x, pb, {}) && pb < b && (x.Node? ==> b < x.b)
    ensures var (mk, x') := Promote(x, b);
      && WF(w, x', b, {}) && Keys(x') == Keys(x) && Routes(x') == Routes(x)
      && MaskListOk(mk, Routes(x), pb, b, {})
  {
    if x.Leaf? {
      PromoteLeafWF(w, x, pb, b);
      PromoteLeafList(w, x, pb, b);
    } else {
      MkSplitSpec(x.mk, b);
      var (mk, x') := Promote(x, b);
      assert Routes(x') == Routes(x) && Keys(x') == Keys(x);
      assert MaskListOk(x'.mk, Routes(x'), b, x.b, {});
    }
  }

  /** All keys of `x` agree with `k` before bit `b` and differ from it there. */
  ghost predicate PartsAt(x: Tree, k: Bits, b: nat) {
    forall k' :: k' in Keys(x) ==> |k'| == |k| && b < |k| && k'[..b] == k[..b] && k'[b] != k[b]
  }

  lemma NewPairWF(w: nat, x: Tree, pb: int, k: Bits, b: nat, mask: Mask)
    requires WF(w, x, pb, {}) && pb < b < w && (x.Node? ==> b < x.b)
    requires ValidRoute(w, Route(k, mask)) && PartsAt(x, k, b) && !AllZero(k) && !AllOne(k)
    ensures var r := Route(k, mask); var t := NewPair(x, k, b, mask);
      WF(w, t, pb, {r}) && Keys(t) == Keys(x) + {k} && Routes(t) == Routes(x) + {r} && Unmarked(t, k, mask)
  {
    var r := Route(k, mask);
    var leaf := Leaf(k, false, [Entry(mask, false)]);
    var (mk, x') := Promote(x, b);
    KeysShape(w, x, pb, {});
    PartsBit(x, k, b);
    FreshLeaf(w, k, b, mask);
    assert ChainOk(w, leaf, b, {r}) ==> WF(w, leaf, b, {r});
    hide WF, Routes, Keys, ChainOk, Promote, MaskListOk, Agree, Bit, PartsAt;
    PromoteWF(w, x, pb, b);
    MissElsewhere(w, x', b, {}, {r});
    ListWithout(mk, Routes(x), pb, b, r);
    Commute(Keys(x), {k});
    Commute(Routes(x), {r});
    MakePair(w, b, mk, x', leaf, pb, {r}, Bit(k, b));
    PairUnmarked(mk, x', k, b, mask);
  }

  lemma Commute<T>(a: set<T>, b: set<T>)
    ensures a + b == b + a
  {
  }

  lemma MakePair(w: nat, b: nat, mk: seq<Ann>, x: Tree, leaf: Tree, pb: int, miss: set<Route>, right: bool)
    requires pb < b < w && WF(w, x, b, miss) && WF(w, leaf, b, miss)
    requires (forall k :: k in Keys(leaf) ==> Bit(k, b) == right) && (forall k :: k in Keys(x) ==> Bit(k, b) != right)
    requires Agree(Keys(x) + Keys(leaf), b) && MaskListOk(mk, Routes(x) + Routes(leaf), pb, b, miss)
    ensures var t := if right then Node(b, mk, x, leaf) else Node(b, mk, leaf, x);
      WF(w, t, pb, miss) && Keys(t) == Keys(x) + Keys(leaf) && Routes(t) == Routes(x) + Routes(leaf)
  {
    hide WF, Routes, Keys, MaskListOk, Agree, Bit;
    Commute(Keys(x), Keys(leaf));
    Commute(Routes(x), Routes(leaf));
    if right {
      MakeNode(w, b, mk, x, leaf, pb, miss);
    } else {
      MakeNode(w, b, mk, leaf, x, pb, miss);
    }
  }

  /** The new key and the others part at `b`. */
  lemma PartsBit(x: Tree, k: Bits, b: nat)
    requires PartsAt(x, k, b) && b < |k| && Keys(x) != {}
    ensures k !in Keys(x) && Agree(Keys(x) + {k}, b) && forall k' :: k' in Keys(x) ==> Bit(k', b) != Bit(k, b)
  {
  }

  lemma ListWithout(mk: seq<Ann>, rs: set<Route>, pb: int, b: int, r: Route)
    requires MaskListOk(mk, rs, pb, b, {}) && r !in rs
    ensures MaskListOk(mk, rs + {r}, pb, b, {r})
  {
    assert (rs + {r}) - {r} == rs;
  }

  lemma MakeNode(w: nat, b: nat, mk: seq<Ann>, l: Tree, r: Tree, pb: int, miss: set<Route>)
    requires pb < b < w && WF(w, l, b, miss) && WF(w, r, b, miss)
    requires (forall k :: k in Keys(l) ==> !Bit(k, b)) && (forall k :: k in Keys(r) ==> Bit(k, b))
    requires Agree(Keys(l) + Keys(r), b) && MaskListOk(mk, Routes(l) + Routes(r), pb, b, miss)
    ensures var t := Node(b, mk, l, r); WF(w, t, pb, miss) && Keys(t) == Keys(l) + Keys(r) && Routes(t) == Routes(l) + Routes(r)
  {
  }

  lemma PairUnmarked(mk: seq<Ann>, x: Tree, k: Bits, b: nat, mask: Mask)
    ensures var leaf := Leaf(k, false, [Entry(mask, false)]);
      Unmarked(if Bit(k, b) then Node(b, mk, x, leaf) else Node(b, mk, leaf, x), k, mask)
  {
  }

  lemma FreshLeaf(w: nat, k: Bits, b: nat, mask: Mask)
    requires ValidRoute(w, Route(k, mask)) && !AllZero(k) && !AllOne(k)
    ensures var leaf := Leaf(k, false, [Entry(mask, false)]);
      ChainOk(w, leaf, b, {Route(k, mask)}) && Routes(leaf) == {Route(k, mask)} && Keys(leaf) == {k}
  {
    var leaf := Leaf(k, false, [Entry(mask, false)]);
    assert leaf.chain[0] == Entry(mask, false);
  }

  /** Where the search for `k` first leaves the tree's keys, they all leave it together. */
  lemma PartsAtDiff(w: nat, t: Tree, pb: int, k: Bits, b: nat)
    requires WF(w, t, pb, {}) && |k| == w == |Search(t, k).key|
    requires k != Search(t, k).key && b == FirstDiff(k, Search(t, k).key)
    ensures t.Node? ==> b != t.b
    ensures (t.Leaf? || b < t.b) ==> PartsAt(t, k, b)
  {
    var k0 := Search(t, k).key;
    if t.Node? {
      SearchBit(w, t, pb, k);
      if b < t.b {
        KeysShape(w, t, pb, {});
        SearchSpec(w, t, pb, {}, k);
        forall k' | k' in Keys(t) ensures k'[..b] == k[..b] && k'[b] != k[b] {
          PartsWithin(k', k0, k, t.b, b);
        }
      }
    }
  }

  lemma SearchBit(w: nat, t: Tree, pb: int, k: Bits)
    requires WF(w, t, pb, {}) && t.Node? && |k| == w
    ensures Bit(Search(t, k).key, t.b) == Bit(k, t.b)
  {
    SearchSpec(w, if Bit(k, t.b) then t.r else t.l, t.b, {}, k);
  }

  lemma PartsWithin(k': Bits, k0: Bits, k: Bits, n: nat, b: nat)
    requires b < n <= |k'| == |k0| == |k| && k'[..n] == k0[..n] && k[..b] == k0[..b] && k[b] != k0[b]
    ensures k'[..b] == k[..b] && k'[b] != k[b]
  {
    SamePrefix(k', k0, n);
    assert k'[..b] == k0[..b];
  }

  lemma {:induction false} InsertLeafWF(w: nat, t: Tree, pb: int, k: Bits, b: nat, mask: Mask)
    requires WF(w, t, pb, {}) && ValidRoute(w, Route(k, mask)) && !AllZero(k) && !AllOne(k)
    requires k != Search(t, k).key && |Search(t, k).key| == w && b == FirstDiff(k, Search(t, k).key) && pb < b
    ensures var r := Route(k, mask); var t' := InsertLeaf(t, k, b, mask);
      WF(w, t', pb, {r}) && Keys(t') == Keys(t) + {k} && Routes(t') == Routes(t) + {r} && Unmarked(t', k, mask)
  {
    PartsAtDiff(w, t, pb, k, b);
    if t.Leaf? || b < t.b {
      NewPairWF(w, t, pb, k, b, mask);
    } else {
      InsertLeafWF(w, Taken(t, k), t.b, k, b, mask);
      InsertLeafStep(w, t, pb, k, b, Route(k, mask), InsertLeaf(Taken(t, k), k, b, mask));
    }
  }

  lemma InsertLeafStep(w: nat, t: Tree, pb: int, k: Bits, b: nat, r: Route, c: Tree)
    requires WF(w, t, pb, {}) && t.Node? && t.b < b && |k| == w == |Search(t, k).key| && r.key == k
    requires k != Search(t, k).key && b == FirstDiff(k, Search(t, k).key)
    requires WF(w, c, t.b, {r}) && Keys(c) == Keys(Taken(t, k)) + {k} && Routes(c) == Routes(Taken(t, k)) + {r}
    ensures WF(w, WithTaken(t, k, c), pb, {r})
    ensures Keys(WithTaken(t, k, c)) == Keys(t) + {k} && Routes(WithTaken(t, k, c)) == Routes(t) + {r}
    ensures Search(WithTaken(t, k, c), k) == Search(c, k)
  {
    WithTakenParts(t, k, c);
    SearchFreshKey(w, t, pb, k);
    AgreeAtDiff(w, t, pb, k, b);
    PathStep(w, t, pb, {}, k, c, {r});
  }

  lemma AgreeAtDiff(w: nat, t: Tree, pb: int, k: Bits, b: nat)
    requires WF(w, t, pb, {}) && t.Node? && t.b < b && |k| == w == |Search(t, k).key|
    requires k != Search(t, k).key && b == FirstDiff(k, Search(t, k).key)
    ensures Agree(Keys(t) + {k}, t.b)
  {
    var k0 := Search(t, k).key;
    SearchSpec(w, t, pb, {}, k);
    assert k[..t.b] == k[..b][..t.b] == k0[..b][..t.b] == k0[..t.b];
    AgreeExtend(Keys(t), t.b, k0, k);
  }

  lemma AgreeExtend(ks: set<Bits>, b: nat, k0: Bits, k: Bits)
    requires Agree(ks, b) && k0 in ks && b <= |k| && k[..b] == k0[..b]
    ensures Agree(ks + {k}, b)
  {
  }

  /** A key whose search ends at another key is not in the tree. */
  lemma SearchFreshKey(w: nat, t: Tree, pb: int, k: Bits)
    requires WF(w, t, pb, {}) && Search(t, k).key != k
    ensures k !in Keys(t) && forall r :: r in Routes(t) ==> r.key != k
  {
    KeysShape(w, t, pb, {});
    if k in Keys(t) {
      SearchOwnKey(w, t, pb, {}, k);
      assert false;
    }
  }

  // ----- Lifting a mask -----

  lemma {:induction false} MkInsertSpec(mk: seq<Ann>, a: Ann)
    requires Descending(mk) && forall x :: x in mk ==> x.len != a.len
    ensures var mk' := MkInsert(mk, a);
      mk'.Some? && Descending(mk'.value) && forall x :: x in mk'.value <==> x in mk || x == a
  {
    if mk != [] {
      assert forall x :: x in mk <==> x == mk[0] || x in mk[1..];
      if mk[0].len > a.len {
        MkInsertSpec(mk[1..], a);
        var rest := MkInsert(mk[1..], a).value;
        forall j | 0 <= j < |rest| ensures mk[0].len > rest[j].len {
          assert rest[j] in rest;
          if rest[j] in mk[1..] {
            var i :| 0 <= i < |mk[1..]| && mk[1..][i] == rest[j];
            assert mk[0].len > mk[i + 1].len;
          }
        }
      } else {
        forall j | 0 <= j < |mk| ensures a.len > mk[j].len {
          assert j == 0 || mk[0].len > mk[j].len;
        }
      }
    }
  }

  /** A node holds at most one route of each index: the "non-unique normal route" branch of
      squid_rn_addroute is unreachable. */
  lemma IndexUnique(w: nat, t: Tree, pb: int, k: Bits, m: nat)
    requires var r := Route(k, Net(m)); WF(w, t, pb, {r}) && t.Node? && r in Routes(t) && m <= t.b
    ensures forall a :: a in t.mk ==> a.len != m
  {
    var r := Route(k, Net(m));
    KeysShape(w, t, pb, {r});
    forall a | a in t.mk ensures a.len != m {
      var s := Route(a.key, Net(a.len));
      assert s in Routes(t) && s != r;
      assert s.key[..t.b] == k[..t.b];
      if a.len == m {
        assert s.key[..m] == s.key[..t.b][..m] == k[..t.b][..m] == k[..m];
        CoveredOnce(w, r, s, k);
        assert false;
      }
    }
  }

  lemma MarkLiftedChain(w: nat, leaf: Tree, q: int, k: Bits, m: nat)
    requires leaf.Leaf? && leaf.key == k && ChainOk(w, leaf, q, {Route(k, Net(m))}) && m <= q
    ensures var leaf' := leaf.(chain := MarkLifted(leaf.chain, Net(m)));
      ChainOk(w, leaf', q, {}) && Routes(leaf') == Routes(leaf)
  {
    var chain' := MarkLifted(leaf.chain, Net(m));
    assert forall i :: 0 <= i < |leaf.chain| ==> chain'[i].mask == leaf.chain[i].mask;
  }

  /** Below the node that holds its annotation, a lifted route only needs its mark. */
  lemma {:induction false} MarkWF(w: nat, t: Tree, pb: int, k: Bits, m: nat, chain: seq<Entry>)
    requires WF(w, t, pb, {Route(k, Net(m))}) && k in Keys(t) && m <= pb
    requires chain == MarkLifted(Search(t, k).chain, Net(m))
    ensures var t' := SetChain(t, k, chain); WF(w, t', pb, {}) && Keys(t') == Keys(t) && Routes(t') == Routes(t)
  {
    var r := Route(k, Net(m));
    if t.Leaf? {
      MarkLiftedChain(w, t, pb, k, m);
    } else {
      ChildrenApart(w, t, pb, {r}, k);
      MarkWF(w, Taken(t, k), t.b, k, m, chain);
      SamePathStep(w, t, pb, {r}, k, SetChain(Taken(t, k), k, chain), {}, r);
    }
  }

  /** Rebuilding a node around a child with the same keys and routes, when the one route
      whose annotation status changed is not this node's business. */
  lemma SamePathStep(w: nat, t: Tree, pb: int, miss: set<Route>, k: Bits, c: Tree, miss': set<Route>, r: Route)
    requires WF(w, t, pb, miss) && t.Node? && WF(w, c, t.b, miss') && k in Keys(t)
    requires miss <= {r} && miss' <= {r} && r.key == k && (r.mask.Net? ==> r.mask.len <= pb || t.b < r.mask.len)
    requires Keys(c) == Keys(Taken(t, k)) && Routes(c) == Routes(Taken(t, k))
    ensures var t' := WithTaken(t, k, c); WF(w, t', pb, miss') && Keys(t') == Keys(t) && Routes(t') == Routes(t)
  {
    ChildrenApart(w, t, pb, miss, k);
    WithTakenParts(t, k, c);
    assert Keys(t) + {k} == Keys(t);
    PathStep(w, t, pb, miss, k, c, miss');
  }

  lemma {:induction false} LiftWF(w: nat, t: Tree, pb: int, k: Bits, m: nat)
    requires var r := Route(k, Net(m)); WF(w, t, pb, {r}) && r in Routes(t) && pb < m
    requires Unmarked(t, k, Net(m))
    ensures var t' := Lift(t, k, m); WF(w, t', pb, {}) && Keys(t') == Keys(t) && Routes(t') == Routes(t)
  {
    var r := Route(k, Net(m));
    KeysShape(w, t, pb, {r});
    if t.Node? {
      ChildrenApart(w, t, pb, {r}, k);
      if m <= t.b {
        IndexUnique(w, t, pb, k, m);
        MkInsertSpec(t.mk, Ann(k, m));
        assert Search(t, k) == Search(Taken(t, k), k);
        var chain := MarkLifted(Search(t, k).chain, Net(m));
        MarkWF(w, Taken(t, k), t.b, k, m, chain);
        LiftHere(w, t, pb, k, m, SetChain(Taken(t, k), k, chain));
      } else {
        assert Search(t, k) == Search(Taken(t, k), k);
        LiftWF(w, Taken(t, k), t.b, k, m);
        SamePathStep(w, t, pb, {r}, k, Lift(Taken(t, k), k, m), {}, r);
      }
    } else {
      assert Search(t, k).chain == t.chain;
      assert ChainOk(w, t, pb, {});
    }
  }

  lemma LiftHere(w: nat, t: Tree, pb: int, k: Bits, m: nat, c: Tree)
    requires var r := Route(k, Net(m)); WF(w, t, pb, {r}) && r in Routes(t) && t.Node? && pb < m <= t.b && k in Keys(t)
    requires MkInsert(t.mk, Ann(k, m)).Some?
    requires var mk := MkInsert(t.mk, Ann(k, m)).value; Descending(mk) && forall x :: x in mk <==> x in t.mk || x == Ann(k, m)
    requires WF(w, c, t.b, {}) && Keys(c) == Keys(Taken(t, k)) && Routes(c) == Routes(Taken(t, k))
    ensures var t' := WithTaken(t.(mk := MkInsert(t.mk, Ann(k, m)).value), k, c);
      WF(w, t', pb, {}) && Keys(t') == Keys(t) && Routes(t') == Routes(t)
  {
    var r := Route(k, Net(m));
    var mk := MkInsert(t.mk, Ann(k, m)).value;
    var t' := WithTaken(t.(mk := mk), k, c);
    ChildrenApart(w, t, pb, {r}, k);
    MissElsewhere(w, Spared(t, k), t.b, {r}, {});
    assert Routes(t') == Routes(t) && Keys(t') == Keys(t);
    assert MaskListOk(mk, Routes(t), pb, t.b, {}) by {
      forall s | s in Routes(t) && s.mask.Net? && pb < s.mask.len <= t.b ensures Ann(s.key, s.mask.len) in mk {
        assert s == r || s in Routes(t) - {r};
      }
    }
  }

  // ----- Taking an annotation off -----

  lemma {:induction false} MkRemoveSpec(mk: seq<Ann>, a: Ann)
    requires Descending(mk) && a in mk
    ensures var mk' := MkRemove(mk, a);
      mk'.Some? && Descending(mk'.value) && forall x :: x in mk'.value <==> x in mk && x != a
  {
    assert forall x :: x in mk <==> x == mk[0] || x in mk[1..];
    if mk[0] == a {
      forall x | x in mk[1..] ensures x != a {
        var i :| 0 <= i < |mk[1..]| && mk[1..][i] == x;
        assert mk[0].len > mk[i + 1].len;
      }
    } else {
      MkRemoveSpec(mk[1..], a);
      var rest := MkRemove(mk[1..], a).value;
      forall j | 0 <= j < |rest| ensures mk[0].len > rest[j].len {
        assert rest[j] in rest && rest[j] in mk[1..];
        var i :| 0 <= i < |mk[1..]| && mk[1..][i] == rest[j];
        assert mk[0].len > mk[i + 1].len;
      }
    }
  }

  /** Giving up a route's annotation changes nothing in a subtree whose lists it is not on. */
  lemma {:induction false} RelaxWF(w: nat, t: Tree, pb: int, r: Route)
    requires WF(w, t, pb, {}) && (r.mask.Net? ==> r.mask.len <= pb)
    ensures WF(w, t, pb, {r})
  {
    if t.Node? {
      RelaxWF(w, t.l, t.b, r);
      RelaxWF(w, t.r, t.b, r);
      assert MaskListOk(t.mk, Routes(t), pb, t.b, {r});
    }
  }

  lemma {:induction false} UnliftWF(w: nat, t: Tree, pb: int, k: Bits, m: nat)
    requires var r := Route(k, Net(m)); WF(w, t, pb, {}) && r in Routes(t) && pb < m
    ensures var t' := Unlift(t, k, m);
      WF(w, t', pb, {Route(k, Net(m))}) && Keys(t') == Keys(t) && Routes(t') == Routes(t)
    ensures Search(Unlift(t, k, m), k) == Search(t, k)
  {
    var r := Route(k, Net(m));
    KeysShape(w, t, pb, {});
    if t.Node? {
      ChildrenApart(w, t, pb, {}, k);
      if m <= t.b {
        UnliftHere(w, t, pb, k, m);
      } else {
        UnliftWF(w, Taken(t, k), t.b, k, m);
        SamePathStep(w, t, pb, {}, k, Unlift(Taken(t, k), k, m), {r}, r);
        WithTakenParts(t, k, Unlift(Taken(t, k), k, m));
      }
    }
  }

  lemma UnliftHere(w: nat, t: Tree, pb: int, k: Bits, m: nat)
    requires var r := Route(k, Net(m)); WF(w, t, pb, {}) && r in Routes(t) && t.Node? && pb < m <= t.b
    ensures MkRemove(t.mk, Ann(k, m)).Some?
    ensures var t' := t.(mk := MkRemove(t.mk, Ann(k, m)).value);
      WF(w, t', pb, {Route(k, Net(m))}) && Keys(t') == Keys(t) && Routes(t') == Routes(t)
  {
    var r := Route(k, Net(m));
    assert Ann(r.key, r.mask.len) in t.mk;
    MkRemoveSpec(t.mk, Ann(k, m));
    RelaxWF(w, t.l, t.b, r);
    RelaxWF(w, t.r, t.b, r);
    var t' := t.(mk := MkRemove(t.mk, Ann(k, m)).value);
    assert Routes(t') == Routes(t) && Keys(t') == Keys(t);
    assert MaskListOk(t'.mk, Routes(t), pb, t.b, {r});
  }

  /** A leaf below a node that tests at or past a mask's index has that mask lifted. */
  lemma {:induction false} LiftedBelow(w: nat, t: Tree, pb: int, k: Bits, i: nat)
    requires WF(w, t, pb, {}) && i < |Search(t, k).chain|
    requires var mask := Search(t, k).chain[i].mask; mask.Net? && (mask.len <= pb || (t.Node? && mask.len <= t.b))
    ensures Search(t, k).chain[i].lifted
  {
    if t.Node? {
      LiftedBelow(w, Taken(t, k), t.b, k, i);
    }
  }

  /** An unlifted mask is on no list, so there is nothing to take off. */
  lemma {:induction false} UnliftUnlifted(w: nat, t: Tree, pb: int, k: Bits, i: nat)
    requires WF(w, t, pb, {}) && i < |Search(t, k).chain|
    requires var e := Search(t, k).chain[i]; e.mask.Net? && !e.lifted
    ensures Unlift(t, k, Search(t, k).chain[i].mask.len) == t
  {
    if t.Node? {
      if Search(t, k).chain[i].mask.len <= t.b {
        LiftedBelow(w, t, pb, k, i);
        assert false;
      }
      UnliftUnlifted(w, Taken(t, k), t.b, k, i);
    }
  }

  // ----- Removing a route -----

  lemma RemoveFromChain(w: nat, leaf: Tree, q: int, i: nat)
    requires leaf.Leaf? && FirstRoute(leaf) <= i < |leaf.chain| && |leaf.chain| > 1
    requires ChainOk(w, leaf, q, {Route(leaf.key, leaf.chain[i].mask)})
    ensures var leaf' := leaf.(chain := leaf.chain[..i] + leaf.chain[i + 1..]);
      ChainOk(w, leaf', q, {})
  {
    var r := Route(leaf.key, leaf.chain[i].mask);
    var chain' := leaf.chain[..i] + leaf.chain[i + 1..];
    assert forall j :: 0 <= j < |chain'| ==> chain'[j] == leaf.chain[if j < i then j else j + 1];
    forall j | 0 <= j < |leaf.chain| && j != i ensures leaf.chain[j].mask != leaf.chain[i].mask {
      assert Before(leaf.chain[if i < j then i else j].mask, leaf.chain[if i < j then j else i].mask);
    }
  }

  lemma RoutesWithout(w: nat, leaf: Tree, q: int, i: nat)
    requires leaf.Leaf? && FirstRoute(leaf) <= i < |leaf.chain|
    requires ChainOk(w, leaf, q, {Route(leaf.key, leaf.chain[i].mask)})
    ensures var leaf' := leaf.(chain := leaf.chain[..i] + leaf.chain[i + 1..]);
      Routes(leaf') == Routes(leaf) - {Route(leaf.key, leaf.chain[i].mask)}
  {
    var r := Route(leaf.key, leaf.chain[i].mask);
    var leaf' := leaf.(chain := leaf.chain[..i] + leaf.chain[i + 1..]);
    assert forall j :: 0 <= j < |leaf'.chain| ==> leaf'.chain[j] == leaf.chain[if j < i then j else j + 1];
    forall j | 0 <= j < |leaf.chain| && j != i ensures leaf.chain[j].mask != leaf.chain[i].mask {
      assert Before(leaf.chain[if i < j then i else j].mask, leaf.chain[if i < j then j else i].mask);
    }
    forall s | s in Routes(leaf) - {r} ensures s in Routes(leaf') {
      var j :| FirstRoute(leaf) <= j < |leaf.chain| && s == Route(leaf.key, leaf.chain[j].mask);
      assert leaf'.chain[if j < i then j else j - 1] == leaf.chain[j];
    }
  }

  /** Unlinking one entry of a longer chain. */
  lemma RemoveEntryWF(w: nat, t: Tree, pb: int, k: Bits, i: nat)
    requires k in Keys(t) && FirstRoute(Search(t, k)) <= i < |Search(t, k).chain| && |Search(t, k).chain| > 1
    requires WF(w, t, pb, {Route(k, Search(t, k).chain[i].mask)})
    ensures var leaf := Search(t, k); var t' := SetChain(t, k, leaf.chain[..i] + leaf.chain[i + 1..]);
      WF(w, t', pb, {}) && Keys(t') == Keys(t) && Routes(t') == Routes(t) - {Route(k, leaf.chain[i].mask)}
  {
    var leaf := Search(t, k);
    var r := Route(k, leaf.chain[i].mask);
    LeafRoutesWithin(w, t, pb, {r}, k);
    var leaf' := leaf.(chain := leaf.chain[..i] + leaf.chain[i + 1..]);
    var q0: int :| ChainOk(w, leaf, q0, {r});
    RoutesWithout(w, leaf, q0, i);
    forall q: int | ChainOk(w, leaf, q, {r}) ensures ChainOk(w, leaf', q, {}) {
      RemoveFromChain(w, leaf, q, i);
    }
    SetChainWF(w, t, pb, {r}, k, leaf', {});
  }

  /** The chain with the marks of some annotations taken off. */
  ghost predicate Demoted(key: Bits, chain: seq<Entry>, mk: seq<Ann>, chain': seq<Entry>) {
    && |chain'| == |chain|
    && (forall i :: 0 <= i < |chain| ==> chain'[i].mask == chain[i].mask)
    && (forall i :: 0 <= i < |chain| ==>
          (chain'[i].lifted <==> chain[i].lifted && !(chain[i].mask.Net? && Ann(key, chain[i].mask.len) in mk)))
  }

  lemma {:induction false} DemoteChainSpec(key: Bits, chain: seq<Entry>, mk: seq<Ann>)
    requires forall i, j :: 0 <= i < j < |chain| ==> Before(chain[i].mask, chain[j].mask)
    requires Descending(mk)
    requires forall a :: a in mk ==> a.key == key && Entry(Net(a.len), true) in chain
    ensures var (chain', left) := DemoteChain(key, chain, mk); left == [] && Demoted(key, chain, mk, chain')
  {
    if chain == [] {
      assert forall a :: a !in mk;
    } else if mk != [] {
      hide Demoted, Before;
      var e := chain[0];
      assert mk[0] in mk;
      if e.lifted && e.mask.Net? && mk[0] == Ann(key, e.mask.len) {
        forall a | a in mk[1..] ensures Entry(Net(a.len), true) in chain[1..] {
          var i :| 0 <= i < |mk[1..]| && mk[1..][i] == a;
          assert mk[0].len > mk[i + 1].len && a in mk;
        }
        DemoteChainSpec(key, chain[1..], mk[1..]);
        DemotedHit(key, chain, mk, DemoteChain(key, chain[1..], mk[1..]).0);
      } else {
        forall a | a in mk ensures Entry(Net(a.len), true) in chain[1..] {
          DemoteSkips(key, chain, mk, a);
        }
        DemoteSkips(key, chain, mk, mk[0]);
        DemoteChainSpec(key, chain[1..], mk);
        DemotedMiss(key, chain, mk, DemoteChain(key, chain[1..], mk).0);
      }
    }
  }

  lemma DemotedHit(key: Bits, chain: seq<Entry>, mk: seq<Ann>, rest: seq<Entry>)
    requires chain != [] && mk != [] && chain[0].lifted && chain[0].mask == Net(mk[0].len) && mk[0].key == key
    requires forall i, j :: 0 <= i < j < |chain| ==> Before(chain[i].mask, chain[j].mask)
    requires Demoted(key, chain[1..], mk[1..], rest)
    ensures Demoted(key, chain, mk, [Entry(chain[0].mask, false)] + rest)
  {
    var chain' := [Entry(chain[0].mask, false)] + rest;
    forall i | 0 < i < |chain|
      ensures chain'[i].mask == chain[i].mask
      ensures chain'[i].lifted <==> chain[i].lifted && !(chain[i].mask.Net? && Ann(key, chain[i].mask.len) in mk)
    {
      assert chain'[i] == rest[i - 1] && chain[i] == chain[1..][i - 1];
      assert Before(chain[0].mask, chain[i].mask);
      assert mk == [mk[0]] + mk[1..];
    }
  }

  lemma DemotedMiss(key: Bits, chain: seq<Entry>, mk: seq<Ann>, rest: seq<Entry>)
    requires chain != [] && Demoted(key, chain[1..], mk, rest)
    requires chain[0].mask.Net? && chain[0].lifted ==> Ann(key, chain[0].mask.len) !in mk
    ensures Demoted(key, chain, mk, [chain[0]] + rest)
  {
    var chain' := [chain[0]] + rest;
    forall i | 0 < i < |chain|
      ensures chain'[i].mask == chain[i].mask
      ensures chain'[i].lifted <==> chain[i].lifted && !(chain[i].mask.Net? && Ann(key, chain[i].mask.len) in mk)
    {
      assert chain'[i] == rest[i - 1] && chain[i] == chain[1..][i - 1];
    }
  }

  /** A head that is not the first annotation's entry is no annotation's entry. */
  lemma DemoteSkips(key: Bits, chain: seq<Entry>, mk: seq<Ann>, a: Ann)
    requires forall i, j :: 0 <= i < j < |chain| ==> Before(chain[i].mask, chain[j].mask)
    requires Descending(mk) && a in mk && chain != []
    requires forall x :: x in mk ==> x.key == key && Entry(Net(x.len), true) in chain
    requires !(chain[0].lifted && chain[0].mask.Net? && mk[0] == Ann(key, chain[0].mask.len))
    ensures Entry(Net(a.len), true) in chain[1..]
    ensures chain[0].mask.Net? && chain[0].lifted ==> Ann(key, chain[0].mask.len) !in mk
  {
    var j0 :| 0 <= j0 < |chain| && chain[j0] == Entry(Net(mk[0].len), true);
    assert j0 > 0;
    assert Before(chain[0].mask, chain[j0].mask);
    forall x | x in mk ensures Entry(Net(x.len), true) != chain[0] {
      var i :| 0 <= i < |mk| && mk[i] == x;
      assert i == 0 || mk[0].len > mk[i].len;
    }
  }

  /** The surviving child takes over the mask list of the node that goes. */
  lemma DemoteWF(w: nat, x: Tree, b: nat, pb: int, mk: seq<Ann>)
    requires WF(w, x, b, {}) && MaskListOk(mk, Routes(x), pb, b, {}) && pb < b
    ensures var x' := Demote(x, mk); WF(w, x', pb, {}) && Keys(x') == Keys(x) && Routes(x') == Routes(x)
    ensures x.Leaf? ==> DemoteChain(x.key, x.chain, mk).1 == []
  {
    if x.Leaf? {
      DemoteLeafWF(w, x, b, pb, mk);
    } else {
      var x' := Demote(x, mk);
      assert Routes(x') == Routes(x) && Keys(x') == Keys(x);
      assert MaskListOk(x.mk + mk, Routes(x), pb, x.b, {}) by {
        assert forall a :: a in x.mk + mk <==> a in x.mk || a in mk;
        forall i, j | 0 <= i < |x.mk| && 0 <= j < |mk| ensures x.mk[i].len > mk[j].len {
          assert x.mk[i] in x.mk && mk[j] in mk;
        }
      }
    }
  }

  lemma DemoteLeafWF(w: nat, x: Tree, b: nat, pb: int, mk: seq<Ann>)
    requires x.Leaf? && ChainOk(w, x, b, {}) && MaskListOk(mk, Routes(x), pb, b, {}) && pb < b
    ensures var x' := Demote(x, mk); ChainOk(w, x', pb, {}) && Routes(x') == Routes(x)
    ensures DemoteChain(x.key, x.chain, mk).1 == []
  {
    forall a | a in mk ensures a.key == x.key && Entry(Net(a.len), true) in x.chain {
      var i :| FirstRoute(x) <= i < |x.chain| && Route(a.key, Net(a.len)) == Route(x.key, x.chain[i].mask);
      assert x.chain[i] == Entry(Net(a.len), true);
    }
    DemoteChainSpec(x.key, x.chain, mk);
    var x' := Demote(x, mk);
    assert forall i :: 0 <= i < |x.chain| ==> x'.chain[i].mask == x.chain[i].mask;
    forall i | 0 <= i < |x.chain|
      ensures x'.chain[i].lifted <==> x.chain[i].mask.Net? && x.chain[i].mask.len <= pb
    {
      var mask := x.chain[i].mask;
      if mask.Net? && pb < mask.len <= b {
        assert Route(x.key, mask) in Routes(x);
      }
    }
  }

  /** Unlinking a leaf with a single route, and its parent with it. */
  lemma {:induction false} RemoveLeafWF(w: nat, t: Tree, pb: int, r: Route)
    requires WF(w, t, pb, {r}) && t.Node? && r.key in Keys(t) && Routes(Search(t, r.key)) == {r}
    ensures var t' := RemoveLeaf(t, r.key);
      WF(w, t', pb, {}) && Keys(t') == Keys(t) - {r.key} && Routes(t') == Routes(t) - {r}
  {
    var k := r.key;
    ChildrenApart(w, t, pb, {r}, k);
    if Taken(t, k).Leaf? {
      RemoveLeafHere(w, t, pb, r);
    } else {
      RemoveLeafWF(w, Taken(t, k), t.b, r);
      RemoveLeafStep(w, t, pb, r, RemoveLeaf(Taken(t, k), k));
    }
  }

  lemma RemoveLeafHere(w: nat, t: Tree, pb: int, r: Route)
    requires WF(w, t, pb, {r}) && t.Node? && r.key in Keys(t) && Taken(t, r.key).Leaf? && Routes(Taken(t, r.key)) == {r}
    ensures var t' := Demote(Spared(t, r.key), t.mk);
      WF(w, t', pb, {}) && Keys(t') == Keys(t) - {r.key} && Routes(t') == Routes(t) - {r}
  {
    var k := r.key;
    ChildrenApart(w, t, pb, {r}, k);
    WithTakenParts(t, k, t);
    KeysShape(w, Spared(t, k), t.b, {r});
    MissElsewhere(w, Spared(t, k), t.b, {r}, {});
    assert Routes(t) - {r} == Routes(Spared(t, k));
    DemoteWF(w, Spared(t, k), t.b, pb, t.mk);
  }

  lemma RemoveLeafStep(w: nat, t: Tree, pb: int, r: Route, c: Tree)
    requires WF(w, t, pb, {r}) && t.Node? && r.key in Keys(t)
    requires WF(w, c, t.b, {}) && Keys(c) == Keys(Taken(t, r.key)) - {r.key} && Routes(c) == Routes(Taken(t, r.key)) - {r}
    ensures var t' := WithTaken(t, r.key, c);
      WF(w, t', pb, {}) && Keys(t') == Keys(t) - {r.key} && Routes(t') == Routes(t) - {r}
  {
    var k := r.key;
    ChildrenApart(w, t, pb, {r}, k);
    WithTakenParts(t, k, c);
    KeysShape(w, Spared(t, k), t.b, {r});
    var o, keys := Routes(Spared(t, k)), Keys(Spared(t, k));
    assert r !in o && k !in keys;
    assert Agree(Keys(t) + {k}, t.b) by { assert Keys(t) + {k} == Keys(t); }
    hide WF, Search, Routes, Keys, Agree;
    PathStep(w, t, pb, {r}, k, c, {});
    UnionWithout(keys, Keys(Taken(t, k)), k);
    UnionWithout(o, Routes(Taken(t, k)), r);
  }

  lemma UnionWithout<T>(a: set<T>, b: set<T>, x: T)
    requires x !in a
    ensures a + (b - {x}) == a + b - {x}
  {
  }
}
