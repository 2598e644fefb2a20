/**
 The routing table object: the loops of lib/radix.c over the tree.  The parent pointers
 that the source climbs are the path collected on the way down, and relinking a node in
 place is rebuilding the tree along that path.
 */
module RadixHead {
  import opened Basics
  import opened RadixTree
  import opened RadixMatch
  import opened RadixUpdate
  import opened RadixInvariant
  import opened RadixTable

  /** `path` leads from `top` to `t` along the tested bits of `k`. */
  ghost predicate OnPath(top: Tree, path: seq<Tree>, k: Bits, t: Tree) {
    if path == [] then t == top
    else
      var n := |path| - 1;
      path[n].Node? && t == Taken(path[n], k) && OnPath(top, path[..n], k, path[n])
  }

  /** The tree with the subtree at the end of `path` replaced. */
  ghost function Plug(path: seq<Tree>, k: Bits, c: Tree): Tree {
    if path == [] then c
    else
      var n := |path| - 1;
      if path[n].Leaf? then c else Plug(path[..n], k, WithTaken(path[n], k, c))
  }

  lemma {:induction false} OnPathPrefix(top: Tree, path: seq<Tree>, k: Bits, t: Tree, j: nat)
    requires OnPath(top, path, k, t) && j < |path|
    ensures OnPath(top, path[..j], k, path[j]) && path[j].Node?
  {
    var n := |path| - 1;
    if j < n {
      OnPathPrefix(top, path[..n], k, path[n], j);
      assert path[..n][..j] == path[..j];
    }
  }

  /** The invariant holds at every node of a path. */
  lemma {:induction false} PathEnd(w: nat, top: Tree, path: seq<Tree>, k: Bits, t: Tree, miss: set<Route>)
    requires WF(w, top, -1, miss) && OnPath(top, path, k, t)
    ensures path != [] ==> path[|path| - 1].Node?
    ensures WF(w, t, if path == [] then -1 else path[|path| - 1].b, miss)
  {
    if path != [] {
      var n := |path| - 1;
      PathEnd(w, top, path[..n], k, path[n], miss);
    }
  }

  /** Bits tested along a path increase. */
  lemma {:induction false} PathWF(w: nat, top: Tree, path: seq<Tree>, k: Bits, t: Tree, miss: set<Route>)
    requires WF(w, top, -1, miss) && OnPath(top, path, k, t)
    ensures forall i :: 0 <= i < |path| ==> path[i].Node?
    ensures forall i, j :: 0 <= i < j < |path| ==> path[i].b < path[j].b
  {
    if path != [] {
      var n := |path| - 1;
      PathWF(w, top, path[..n], k, path[n], miss);
      PathEnd(w, top, path[..n], k, path[n], miss);
      assert forall i :: 0 <= i < n ==> path[..n][i] == path[i];
    }
  }

  lemma {:induction false} PlugSetChain(top: Tree, path: seq<Tree>, k: Bits, t: Tree, chain: seq<Entry>)
    requires OnPath(top, path, k, t)
    ensures SetChain(top, k, chain) == Plug(path, k, SetChain(t, k, chain))
  {
    if path != [] {
      PlugSetChain(top, path[..|path| - 1], k, path[|path| - 1], chain);
    }
  }

  lemma {:induction false} PlugInsert(top: Tree, path: seq<Tree>, k: Bits, t: Tree, b: nat, mask: Mask)
    requires OnPath(top, path, k, t) && forall i :: 0 <= i < |path| ==> path[i].Node? && path[i].b < b
    ensures InsertLeaf(top, k, b, mask) == Plug(path, k, InsertLeaf(t, k, b, mask))
  {
    if path != [] {
      PlugInsert(top, path[..|path| - 1], k, path[|path| - 1], b, mask);
    }
  }

  lemma {:induction false} PlugLift(top: Tree, path: seq<Tree>, k: Bits, t: Tree, m: nat)
    requires OnPath(top, path, k, t) && forall i :: 0 <= i < |path| ==> path[i].Node? && path[i].b < m
    ensures Lift(top, k, m) == Plug(path, k, Lift(t, k, m))
    ensures Unlift(top, k, m) == Plug(path, k, Unlift(t, k, m))
  {
    if path != [] {
      PlugLift(top, path[..|path| - 1], k, path[|path| - 1], m);
    }
  }

  lemma {:induction false} PlugRemove(top: Tree, path: seq<Tree>, k: Bits, t: Tree)
    requires OnPath(top, path, k, t) && t.Node?
    ensures RemoveLeaf(top, k) == Plug(path, k, RemoveLeaf(t, k))
  {
    if path != [] {
      PlugRemove(top, path[..|path| - 1], k, path[|path| - 1]);
    }
  }

  lemma {:induction false} PlugSearch(top: Tree, path: seq<Tree>, k: Bits, t: Tree)
    requires OnPath(top, path, k, t)
    ensures Search(top, k) == Search(t, k)
  {
    if path != [] {
      PlugSearch(top, path[..|path| - 1], k, path[|path| - 1]);
    }
  }

  // ----- Loops -----

  /** squid_rn_search, keeping the nodes passed. */
  method Descend(top: Tree, k: Bits) returns (path: seq<Tree>, leaf: Tree)
    ensures OnPath(top, path, k, leaf) && leaf == Search(top, k)
  {
    path, leaf := [], top;
    while leaf.Node?
      invariant OnPath(top, path, k, leaf) && Search(top, k) == Search(leaf, k)
      decreases leaf
    {
      var next := if Bit(k, leaf.b) then leaf.r else leaf.l;
      path := path + [leaf];
      assert path[..|path| - 1] == path[..|path| - 1] && path[|path| - 1] == leaf;
      leaf := next;
    }
  }

  /** squid_rn_search. */
  method FindLeaf(top: Tree, k: Bits) returns (leaf: Tree)
    ensures leaf == Search(top, k)
  {
    leaf := top;
    while leaf.Node?
      invariant Search(top, k) == Search(leaf, k)
      decreases leaf
    {
      leaf := if Bit(k, leaf.b) then leaf.r else leaf.l;
    }
  }

  /** Rebuild the nodes of `path` around a new subtree. */
  method Rebuild(path: seq<Tree>, k: Bits, c: Tree) returns (t: Tree)
    requires forall i :: 0 <= i < |path| ==> path[i].Node?
    ensures t == Plug(path, k, c)
  {
    t := c;
    var i := |path|;
    assert path[..i] == path;
    while i > 0
      invariant 0 <= i <= |path|
      invariant Plug(path[..i], k, t) == Plug(path, k, c)
    {
      assert path[..i][..i - 1] == path[..i - 1];
      i := i - 1;
      t := WithTaken(path[i], k, t);
    }
  }

  /** The byte comparison and bit hunt that find the first differing bit. */
  method FindFirstDiff(a: Bits, b: Bits) returns (d: nat)
    requires |a| == |b| && a != b
    ensures d == FirstDiff(a, b)
  {
    d := 0;
    while a[d] == b[d]
      invariant d < |a| && a[..d] == b[..d] && a[d..] != b[d..]
      decreases |a| - d
    {
      assert a[..d + 1] == a[..d] + [a[d]] && b[..d + 1] == b[..d] + [b[d]];
      assert a[d..] == [a[d]] + a[d + 1..] && b[d..] == [b[d]] + b[d + 1..];
      d := d + 1;
    }
    FirstDiffUnique(a, b, d);
  }

  lemma FirstDiffUnique(a: Bits, b: Bits, d: nat)
    requires |a| == |b| && a != b && d < |a| && a[..d] == b[..d] && a[d] != b[d]
    ensures d == FirstDiff(a, b)
  {
    SamePrefix(a, b, d);
    SamePrefix(a, b, FirstDiff(a, b));
  }

  /** An optional list behind a fixed prefix. */
  function Behind<T>(pre: seq<T>, r: Option<seq<T>>): Option<seq<T>> {
    if r.None? then None else Some(pre + r.value)
  }

  lemma BehindNothing<T>(r: Option<seq<T>>)
    ensures Behind([], r) == r
  {
    if r.Some? {
      assert [] + r.value == r.value;
    }
  }

  lemma BehindTwice<T>(pre: seq<T>, x: T, r: Option<seq<T>>)
    ensures Behind(pre, if r.None? then None else Some([x] + r.value)) == Behind(pre + [x], r)
  {
    if r.Some? {
      assert pre + ([x] + r.value) == pre + [x] + r.value;
    }
  }

  method InsertMask(mk: seq<Ann>, a: Ann) returns (r: Option<seq<Ann>>)
    ensures r == MkInsert(mk, a)
  {
    var i := 0;
    assert mk[..0] == [] && mk[0..] == mk;
    BehindNothing(MkInsert(mk, a));
    while i < |mk| && mk[i].len > a.len
      invariant i <= |mk|
      invariant MkInsert(mk, a) == Behind(mk[..i], MkInsert(mk[i..], a))
    {
      assert mk[i..][0] == mk[i] && mk[i..][1..] == mk[i + 1..] && mk[..i + 1] == mk[..i] + [mk[i]];
      BehindTwice(mk[..i], mk[i], MkInsert(mk[i + 1..], a));
      i := i + 1;
    }
    if i < |mk| && mk[i].len == a.len {
      assert mk[i..][0] == mk[i];
      return None;
    }
    if i == |mk| {
      assert mk[i..] == [] && mk[..i] + [a] + mk[i..] == mk[..i] + [a];
    } else {
      assert mk[i..][0] == mk[i];
    }
    assert mk[..i] + ([a] + mk[i..]) == mk[..i] + [a] + mk[i..];
    return Some(mk[..i] + [a] + mk[i..]);
  }

  method RemoveMask(mk: seq<Ann>, a: Ann) returns (r: Option<seq<Ann>>)
    ensures r == MkRemove(mk, a)
  {
    var i := 0;
    assert mk[..0] == [] && mk[0..] == mk;
    BehindNothing(MkRemove(mk, a));
    while i < |mk| && mk[i] != a
      invariant i <= |mk|
      invariant MkRemove(mk, a) == Behind(mk[..i], MkRemove(mk[i..], a))
    {
      assert mk[i..][0] == mk[i] && mk[i..][1..] == mk[i + 1..] && mk[..i + 1] == mk[..i] + [mk[i]];
      BehindTwice(mk[..i], mk[i], MkRemove(mk[i + 1..], a));
      i := i + 1;
    }
    if i == |mk| {
      return None;
    }
    assert mk[i..][0] == mk[i] && mk[i..][1..] == mk[i + 1..];
    return Some(mk[..i] + mk[i + 1..]);
  }

  method InsertInChain(chain: seq<Entry>, mask: Mask) returns (r: Option<seq<Entry>>)
    ensures r == ChainInsert(chain, mask)
  {
    var i := 0;
    assert chain[..0] == [] && chain[0..] == chain;
    BehindNothing(ChainInsert(chain, mask));
    while i < |chain|
      invariant i <= |chain|
      invariant ChainInsert(chain, mask) == Behind(chain[..i], ChainInsert(chain[i..], mask))
    {
      assert chain[i..][0] == chain[i] && chain[i..][1..] == chain[i + 1..] && chain[..i + 1] == chain[..i] + [chain[i]];
      if chain[i].mask == mask {
        return None;
      }
      if mask.Host? || (chain[i].mask.Net? && mask.len > chain[i].mask.len) {
        assert chain[..i] + ([Entry(mask, false)] + chain[i..]) == chain[..i] + [Entry(mask, false)] + chain[i..];
        return Some(chain[..i] + [Entry(mask, false)] + chain[i..]);
      }
      BehindTwice(chain[..i], chain[i], ChainInsert(chain[i + 1..], mask));
      i := i + 1;
    }
    assert chain[..i] == chain && chain[i..] == [];
    return Some(chain + [Entry(mask, false)]);
  }

  /** The mask list loop of squid_rn_match at one node. */
  method TryMaskList(t: Tree, d: nat) returns (r: Option<Route>)
    requires t.Node?
    ensures r == ScanMaskList(t, t.mk, d)
  {
    var i := 0;
    while i < |t.mk|
      invariant i <= |t.mk| && ScanMaskList(t, t.mk, d) == ScanMaskList(t, t.mk[i..], d)
    {
      assert t.mk[i..][0] == t.mk[i] && t.mk[i..][1..] == t.mk[i + 1..];
      r := AnnResult(t, t.mk[i], d);
      if r.Some? {
        return;
      }
      i := i + 1;
    }
    return None;
  }

  /** What the rest of a climb yields, once the nodes below `path` have been tried. */
  ghost function ClimbRest(path: seq<Tree>, d: nat): Option<Route> {
    if path == [] then None
    else
      var n := |path| - 1;
      var r := ScanMaskList(path[n], if path[n].Node? then path[n].mk else [], d);
      if r.Some? then r else ClimbRest(path[..n], d)
  }

  lemma {:induction false} ClimbRestSpec(top: Tree, path: seq<Tree>, v: Bits, d: nat, t: Tree)
    requires OnPath(top, path, v, t)
    ensures ClimbScan(top, v, d) == var r := ClimbScan(t, v, d); if r.Some? then r else ClimbRest(path, d)
  {
    if path != [] {
      ClimbRestSpec(top, path[..|path| - 1], v, d, path[|path| - 1]);
    }
  }

  /** squid_rn_match's walk up the tree. */
  method Climb(path: seq<Tree>, d: nat) returns (r: Option<Route>)
    requires forall i :: 0 <= i < |path| ==> path[i].Node?
    ensures r == ClimbRest(path, d)
  {
    var i := |path|;
    assert path[..i] == path;
    while i > 0
      invariant 0 <= i <= |path| && ClimbRest(path, d) == ClimbRest(path[..i], d)
    {
      assert path[..i][..i - 1] == path[..i - 1];
      i := i - 1;
      r := TryMaskList(path[i], d);
      if r.Some? {
        return;
      }
    }
    return None;
  }

  /** The loops of squid_rn_match: down to a leaf, along its chain, and up again. */
  method FindMatch(w: nat, top: Tree, v: Bits) returns (m: MatchResult)
    requires WFTop(w, top, {}) && |v| == w && |Search(top, v).key| == w && |Search(top, v).chain| > 0
    ensures m == Match(w, top, v)
  {
    var path, leaf := Descend(top, v);
    var n := CompareLength(w, leaf);
    if v[..n] == leaf.key[..n] {
      return LeafExact(leaf);
    }
    var d := FindFirstDiff(v, leaf.key);
    var start := if leaf.chain[0].mask.Host? then 1 else 0;
    var i := start;
    while i < |leaf.chain|
      invariant start <= i <= |leaf.chain|
      invariant ChainFit(leaf.chain, start, d) == ChainFit(leaf.chain, i, d)
    {
      if leaf.chain[i].mask.Net? && leaf.chain[i].mask.len <= d {
        return Found(Route(leaf.key, leaf.chain[i].mask));
      }
      i := i + 1;
    }
    PathWF(w, top, path, v, leaf, {});
    ClimbRestSpec(top, path, v, d, leaf);
    var r := Climb(path, d);
    m := if r.Some? then Found(r.value) else NoRoute;
  }

  class RadixHead {
    const width: nat
    var top: Tree

    ghost predicate Valid()
      reads this
    {
      WFTop(width, top, {})
    }

    /** The routes in the table. */
    ghost function Table(): set<Route>
      reads this
    {
      Routes(top)
    }

    constructor (w: nat)
      requires w > 0
      ensures Valid() && width == w && Table() == {}
    {
      width := w;
      top := InitTree(w);
      InitTreeWF(w);
    }

    /** squid_rn_match. */
    method Lookup(v: Bits) returns (m: MatchResult)
      requires Valid() && |v| == width
      ensures AgreesWithTable(Table(), v, m) <==>
              !AllOne(v) || Route(v, Net(width)) in Table() || (forall r :: r in Table() ==> !Covers(r, v))
      ensures m.RootLeaf? ==> AllZero(v) || AllOne(v)
    {
      MatchIsLongestPrefix(width, top, v);
      m := FindMatch(width, top, v);
    }

    /** The relinking half of squid_rn_insert: descend again to the first differing bit. */
    method LinkNewLeaf(k: Bits, mask: Mask, b: nat)
      requires Valid() && 0 < b
      modifies this
      ensures top == InsertLeaf(old(top), k, b, mask)
    {
      var path, x := [top], if Bit(k, top.b) then top.r else top.l;
      assert path[..0] == [];
      while x.Node? && x.b < b
        invariant |path| > 0 && OnPath(top, path, k, x)
        invariant forall i :: 0 <= i < |path| ==> path[i].Node? && path[i].b < b
        decreases x
      {
        assert (path + [x])[..|path|] == path;
        path, x := path + [x], if Bit(k, x.b) then x.r else x.l;
      }
      PlugInsert(top, path, k, x, b, mask);
      top := Rebuild(path, k, NewPair(x, k, b, mask));
    }

    /** "Add new route to highest possible ancestor's list". */
    method LiftMask(k: Bits, m: nat, ghost miss: set<Route>)
      requires WFTop(width, top, miss)
      modifies this
      ensures top == Lift(old(top), k, m)
    {
      var path, leaf := Descend(top, k);
      PathWF(width, top, path, k, leaf, miss);
      var j := |path| - 1;
      if m > path[j].b {
        PlugLift(top, path, k, leaf, m);
        PlugSame(top, path, k, leaf);
        return;
      }
      j := HighestHolder(path, m);
      OnPathPrefix(top, path, k, leaf, j);
      PlugSearch(top, path[..j], k, path[j]);
      PlugLift(top, path[..j], k, path[j], m);
      var mk := InsertMask(path[j].mk, Ann(k, m));
      if mk.None? {
        PlugSame(top, path[..j], k, path[j]);
      } else {
        var x := SetChain(Node(path[j].b, mk.value, path[j].l, path[j].r), k, MarkLifted(leaf.chain, Net(m)));
        top := Rebuild(path[..j], k, x);
      }
    }

    /** Take our annotation off the list that holds it. */
    method UnliftMask(k: Bits, m: nat)
      requires Valid()
      modifies this
      ensures top == Unlift(old(top), k, m)
    {
      var path, leaf := Descend(top, k);
      PathWF(width, top, path, k, leaf, {});
      var j := |path| - 1;
      if m > path[j].b {
        PlugLift(top, path, k, leaf, m);
        PlugSame(top, path, k, leaf);
        return;
      }
      j := HighestHolder(path, m);
      OnPathPrefix(top, path, k, leaf, j);
      PlugLift(top, path[..j], k, path[j], m);
      var mk := RemoveMask(path[j].mk, Ann(k, m));
      if mk.None? {
        PlugSame(top, path[..j], k, path[j]);
      } else {
        top := Rebuild(path[..j], k, Node(path[j].b, mk.value, path[j].l, path[j].r));
      }
    }

    /** squid_rn_addroute: true when the route was entered. */
    method Add(r: Route) returns (ok: bool)
      requires Valid() && ValidRoute(width, r)
      modifies this
      ensures Valid()
      ensures ok <==> !old(Refused(top, r))
      ensures Table() == if ok then old(Table()) + {r} else old(Table())
    {
      AddRouteCorrect(width, top, r);
      var k := r.key;
      var path, leaf := Descend(top, k);
      PathWF(width, top, path, k, leaf, {});
      if leaf.key == k {
        var chain := InsertInChain(leaf.chain, r.mask);
        if chain.None? {
          return false;
        }
        assert k in Keys(top) by { SearchSpec(width, top, -1, {}, k); }
        InsertDupWF(width, top, -1, k, r.mask);
        PlugSetChain(top, path, k, leaf, chain.value);
        top := Rebuild(path, k, Leaf(leaf.key, leaf.root, chain.value));
      } else {
        var b := FindFirstDiff(k, leaf.key);
        DiffPastTop(width, top, k);
        AllOnesReached(width, top, k);
        InsertLeafWF(width, top, -1, k, b, r.mask);
        LinkNewLeaf(k, r.mask, b);
      }
      if r.mask.Net? {
        LiftMask(k, r.mask.len, {r});
      }
      ok := true;
    }

    /** squid_rn_delete: the route taken out, if any. */
    method Delete(k: Bits, mask: Mask) returns (gone: Option<Route>)
      requires Valid() && |k| == width
      modifies this
      ensures Valid()
      ensures gone.None? ==> Table() == old(Table()) && forall r :: !Deletes(old(Table()), k, mask, r)
      ensures gone.Some? ==> Deletes(old(Table()), k, mask, gone.value) && Table() == old(Table()) - {gone.value}
    {
      DeleteRouteCorrect(width, top, k, mask);
      gone := DeleteSteps(k, mask);
    }

    /** Its steps: find the leaf, take the annotation off, unlink. */
    method DeleteSteps(k: Bits, mask: Mask) returns (gone: Option<Route>)
      requires Valid() && |k| == width && |Search(top, k).chain| > 0
      modifies this
      ensures var d := DeleteRoute(old(top), k, mask);
        if d.None? then gone == None && top == old(top) else gone == Some(d.value.1) && top == d.value.0
    {
      var leaf := FindLeaf(top, k);
      if leaf.key != k {
        return None;
      }
      var i := DeletePosition(leaf.chain, mask);
      if i.None? || (leaf.root && i.value == 0) {
        return None;
      }
      var e := leaf.chain[i.value];
      assert Route(k, e.mask) in Routes(top) by { SearchSpec(width, top, -1, {}, k); }
      DeleteUnlifted(width, top, k, i.value);
      if e.mask.Net? && e.lifted {
        UnliftMask(k, e.mask.len);
      }
      Unlink(k, i.value, {Route(k, e.mask)});
      gone := Some(Route(k, e.mask));
    }

    /** "Eliminate us from tree": from a longer chain, or the leaf together with its parent. */
    method Unlink(k: Bits, i: nat, ghost miss: set<Route>)
      requires WFTop(width, top, miss) && i < |Search(top, k).chain|
      modifies this
      ensures var leaf := Search(old(top), k);
        top == if |leaf.chain| > 1 then SetChain(old(top), k, leaf.chain[..i] + leaf.chain[i + 1..]) else RemoveLeaf(old(top), k)
    {
      var path, leaf := Descend(top, k);
      PathWF(width, top, path, k, leaf, miss);
      if |leaf.chain| > 1 {
        var chain := leaf.chain[..i] + leaf.chain[i + 1..];
        PlugSetChain(top, path, k, leaf, chain);
        top := Rebuild(path, k, Leaf(leaf.key, leaf.root, chain));
      } else {
        var n := |path| - 1;
        var t := path[n];
        OnPathPrefix(top, path, k, leaf, n);
        PlugRemove(top, path[..n], k, t);
        top := Rebuild(path[..n], k, Demote(if Bit(k, t.b) then t.l else t.r, t.mk));
      }
    }
  }

  /** Climb while the parent still tests at or past the index. */
  method HighestHolder(path: seq<Tree>, m: nat) returns (j: nat)
    requires forall i :: 0 <= i < |path| ==> path[i].Node?
    requires forall i, j :: 0 <= i < j < |path| ==> path[i].b < path[j].b
    requires |path| > 0 && m <= path[|path| - 1].b
    ensures j < |path| && m <= path[j].b && forall i :: 0 <= i < j ==> path[i].b < m
  {
    j := |path| - 1;
    while j > 0 && m <= path[j - 1].b
      invariant 0 <= j < |path| && m <= path[j].b
    {
      j := j - 1;
    }
  }

  lemma {:induction false} PlugSame(top: Tree, path: seq<Tree>, k: Bits, t: Tree)
    requires OnPath(top, path, k, t)
    ensures Plug(path, k, t) == top
  {
    if path != [] {
      PlugSame(top, path[..|path| - 1], k, path[|path| - 1]);
    }
  }
}
