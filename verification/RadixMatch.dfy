/**
 squid_rn_search and squid_rn_match of lib/radix.c as functions of the tree, and the
 proof that a match is the longest-prefix match over the routes in the tree.
 */
module RadixMatch {
  import opened Basics
  import opened RadixTree

  datatype MatchResult = NoRoute | RootLeaf | Found(route: Route)

  /** squid_rn_search: follow the tested bits of `v` down to a leaf. */
  function Search(t: Tree, v: Bits): (leaf: Tree)
    ensures leaf.Leaf?
  {
    match t
    case Leaf(_, _, _) => t
    case Node(b, _, l, r) => if Bit(v, b) then Search(r, v) else Search(l, v)
  }

  /** squid_rn_search_m under the zero mask: every test goes left. */
  function Leftmost(t: Tree): (leaf: Tree)
    ensures leaf.Leaf?
  {
    if t.Leaf? then t else Leftmost(t.l)
  }

  /** Bits compared with the leaf: its mask's length rounded up to whole bytes. */
  function CompareLength(w: nat, leaf: Tree): (n: nat)
    requires leaf.Leaf? && |leaf.chain| > 0
  {
    match leaf.chain[0].mask
    case Host => w
    case Net(m) => var n := (m + 7) / 8 * 8; if n < w then n else w
  }

  /** First position where two keys differ. */
  function FirstDiff(a: Bits, b: Bits): (d: nat)
    requires |a| == |b| && a != b
    ensures d < |a| && a[..d] == b[..d] && a[d] != b[d]
  {
    if a[0] != b[0] then 0
    else
      assert a == [a[0]] + a[1..] && b == [b[0]] + b[1..];
      var d := FirstDiff(a[1..], b[1..]);
      assert a[..d + 1] == [a[0]] + a[1..][..d] && b[..d + 1] == [b[0]] + b[1..][..d];
      d + 1
  }

  /** First mask of the chain, from position `i`, whose index is at most `d`. */
  function ChainFit(chain: seq<Entry>, i: nat, d: nat): (r: Option<nat>)
    requires i <= |chain|
    ensures r.Some? ==> i <= r.value < |chain| && chain[r.value].mask.Net? && chain[r.value].mask.len <= d
    ensures forall j :: i <= j < (if r.Some? then r.value else |chain|) ==>
              !(chain[j].mask.Net? && chain[j].mask.len <= d)
    decreases |chain| - i
  {
    if i == |chain| then None
    else if chain[i].mask.Net? && chain[i].mask.len <= d then Some(i)
    else ChainFit(chain, i + 1, d)
  }

  /** What one annotation at node `t` yields: a normal mask is decided by its index, the
      zero mask by searching the subtree again. */
  function AnnResult(t: Tree, a: Ann, d: nat): Option<Route> {
    if a.len > 0 then
      if a.len <= d then Some(Route(a.key, Net(a.len))) else None
    else
      var x := Leftmost(t);
      if exists i :: 0 <= i < |x.chain| && x.chain[i].mask == Net(0) then Some(Route(x.key, Net(0))) else None
  }

  function ScanMaskList(t: Tree, mk: seq<Ann>, d: nat): Option<Route> {
    if mk == [] then None
    else
      var r := AnnResult(t, mk[0], d);
      if r.Some? then r else ScanMaskList(t, mk[1..], d)
  }

  /** The walk from the leaf reached by `v` up to `t`, trying the mask lists on the way. */
  function ClimbScan(t: Tree, v: Bits, d: nat): Option<Route> {
    match t
    case Leaf(_, _, _) => None
    case Node(b, mk, l, r) =>
      var below := ClimbScan(if Bit(v, b) then r else l, v, d);
      if below.Some? then below else ScanMaskList(t, mk, d)
  }

  function LeafExact(leaf: Tree): MatchResult
    requires leaf.Leaf? && |leaf.chain| > 0
  {
    if leaf.root then
      if |leaf.chain| > 1 then Found(Route(leaf.key, leaf.chain[1].mask)) else RootLeaf
    else
      Found(Route(leaf.key, leaf.chain[0].mask))
  }

  /** squid_rn_match. */
  function Match(w: nat, top: Tree, v: Bits): MatchResult
    requires |v| == w && |Search(top, v).key| == w && |Search(top, v).chain| > 0
  {
    var leaf := Search(top, v);
    var n := CompareLength(w, leaf);
    if v[..n] == leaf.key[..n] then LeafExact(leaf)
    else
      var d := FirstDiff(v, leaf.key);
      var i := ChainFit(leaf.chain, if leaf.chain[0].mask.Host? then 1 else 0, d);
      if i.Some? then Found(Route(leaf.key, leaf.chain[i.value].mask))
      else
        var r := ClimbScan(top, v, d);
        if r.Some? then Found(r.value) else NoRoute
  }

  // ----- Facts about the search -----

  lemma {:induction false} SearchSpec(w: nat, t: Tree, pb: int, miss: set<Route>, v: Bits)
    requires WF(w, t, pb, miss) && |v| == w
    ensures var leaf := Search(t, v);
      && leaf.key in Keys(t) && |leaf.key| == w && |leaf.chain| > 0
      && (forall i :: FirstRoute(leaf) <= i < |leaf.chain| ==> Route(leaf.key, leaf.chain[i].mask) in Routes(t))
      && (exists q: int :: ChainOk(w, leaf, q, miss))
  {
    if t.Leaf? {
      assert ChainOk(w, t, pb, miss);
    } else {
      SearchSpec(w, if Bit(v, t.b) then t.r else t.l, t.b, miss, v);
    }
  }

  /** The leaf reached holds every route of its key. */
  lemma {:induction false} SearchOwnKey(w: nat, t: Tree, pb: int, miss: set<Route>, k: Bits)
    requires WF(w, t, pb, miss) && k in Keys(t)
    ensures Search(t, k).key == k
    ensures forall r :: r in Routes(t) && r.key == k ==>
              exists i :: FirstRoute(Search(t, k)) <= i < |Search(t, k).chain| && Search(t, k).chain[i].mask == r.mask
  {
    if t.Node? {
      KeysShape(w, t.l, t.b, miss);
      KeysShape(w, t.r, t.b, miss);
      SearchOwnKey(w, if Bit(k, t.b) then t.r else t.l, t.b, miss, k);
    }
  }

  lemma {:induction false} LeftmostZero(w: nat, t: Tree, pb: int, miss: set<Route>, k: Bits)
    requires WF(w, t, pb, miss) && k in Keys(t) && AllZero(k)
    ensures Leftmost(t) == Search(t, k)
  {
    if t.Node? {
      LeftmostZero(w, t.l, t.b, miss, k);
    }
  }

  /** A route elsewhere in the tree that covers `v` is less specific than every mask of the
      leaf that `v` reaches, because the two keys part at a tested bit. */
  lemma {:induction false} OtherLeafLessSpecific(w: nat, t: Tree, pb: int, v: Bits, r: Route, m: nat)
    requires WF(w, t, pb, {}) && |v| == w
    requires r in Routes(t) && Covers(r, v) && r.key != Search(t, v).key
    requires ValidRoute(w, Route(Search(t, v).key, Net(m)))
    ensures r.mask.Net? && r.mask.len < m
  {
    var k := Search(t, v).key;
    var c, o := if Bit(v, t.b) then t.r else t.l, if Bit(v, t.b) then t.l else t.r;
    KeysShape(w, c, t.b, {});
    KeysShape(w, o, t.b, {});
    if r in Routes(c) {
      OtherLeafLessSpecific(w, c, t.b, v, r, m);
    } else {
      SearchSpec(w, c, t.b, {}, v);
      assert Bit(r.key, t.b) != Bit(v, t.b);
      assert r.mask.Net?;
      SamePrefix(r.key, v, r.mask.len);
      assert !r.key[t.b] && k[t.b];
    }
  }

  // ----- Scanning the mask lists -----

  lemma {:induction false} ScanMaskListSpec(t: Tree, mk: seq<Ann>, d: nat)
    requires Descending(mk)
    requires forall a :: a in mk && a.len == 0 ==> AnnResult(t, a, d) == Some(Route(a.key, Net(0)))
    ensures var r := ScanMaskList(t, mk, d);
      && (r.None? ==> forall a :: a in mk ==> a.len > d)
      && (r.Some? ==> exists a :: a in mk && a.len <= d && r.value == Route(a.key, Net(a.len)) &&
                        forall a' :: a' in mk && a'.len <= d ==> a'.len <= a.len)
  {
    if mk != [] {
      if AnnResult(t, mk[0], d).Some? {
        assert mk[0] in mk;
        forall a' | a' in mk ensures a'.len <= mk[0].len {
          var j :| 0 <= j < |mk| && mk[j] == a';
        }
      } else {
        ScanMaskListSpec(t, mk[1..], d);
        assert mk == [mk[0]] + mk[1..];
      }
    }
  }

  /** Zero-mask annotations always resolve, and to the route they stand for. */
  lemma ZeroAnnResolves(w: nat, t: Tree, pb: int, a: Ann, d: nat)
    requires WF(w, t, pb, {}) && t.Node? && a in t.mk && a.len == 0
    ensures AnnResult(t, a, d) == Some(Route(a.key, Net(0)))
  {
    var r := Route(a.key, Net(0));
    KeysShape(w, t, pb, {});
    assert r in Routes(t) && ValidRoute(w, r) && AllZero(a.key);
    LeftmostZero(w, t, pb, {}, a.key);
    SearchOwnKey(w, t, pb, {}, a.key);
  }

  /** What is known of the leaf that `v` reaches once the chain has been tried in vain. */
  ghost predicate ChainTried(leaf: Tree, v: Bits, d: nat) {
    && leaf.Leaf? && |leaf.key| == |v| && d < |v|
    && leaf.key[..d] == v[..d] && leaf.key[d] != v[d]
    && forall i :: 0 <= i < |leaf.chain| && leaf.chain[i].mask.Net? ==> leaf.chain[i].mask.len > d
  }

  lemma UncoveredLeaf(leaf: Tree, v: Bits, d: nat)
    requires ChainTried(leaf, v, d)
    ensures forall r :: r in Routes(leaf) ==> !Covers(r, v)
  {
    forall n | d < n <= |v| ensures leaf.key[..n] != v[..n] {
      assert leaf.key[..n][d] != v[..n][d];
    }
  }

  /** A mask list entry that fits covers `v`, since all keys below agree that far. */
  lemma AnnCovers(w: nat, t: Tree, pb: int, v: Bits, d: nat, a: Ann)
    requires WF(w, t, pb, {}) && t.Node? && |v| == w && ChainTried(Search(t, v), v, d)
    requires a in t.mk && a.len <= d
    ensures Covers(Route(a.key, Net(a.len)), v)
  {
    var k, n := Search(t, v).key, a.len;
    KeysShape(w, t, pb, {});
    SearchSpec(w, t, pb, {}, v);
    assert Route(a.key, Net(n)) in Routes(t);
    assert a.key[..t.b] == k[..t.b];
    assert a.key[..n] == a.key[..t.b][..n] == k[..t.b][..n] == k[..n];
    assert k[..n] == k[..d][..n] == v[..d][..n] == v[..n];
  }

  /** Everything covering outside the branch taken has an index of at most the tested bit. */
  lemma OffPathBound(w: nat, t: Tree, pb: int, v: Bits, r: Route)
    requires WF(w, t, pb, {}) && t.Node? && |v| == w
    requires r in Routes(if Bit(v, t.b) then t.l else t.r) && Covers(r, v)
    ensures r.mask.Net? && r.mask.len <= t.b
  {
    KeysShape(w, t.l, t.b, {});
    KeysShape(w, t.r, t.b, {});
    assert Bit(r.key, t.b) != Bit(v, t.b);
    SamePrefix(r.key, v, r.mask.len);
  }

  /**
   The climb finds the most specific covering route among those lifted above `pb`; when
   it finds none, every covering route is annotated higher up.
   */
  lemma {:induction false} ClimbScanSpec(w: nat, t: Tree, pb: int, v: Bits, d: nat)
    requires WF(w, t, pb, {}) && |v| == w && ChainTried(Search(t, v), v, d)
    ensures var r := ClimbScan(t, v, d);
      if r.Some? then IsLongestMatch(Routes(t), v, r.value) && r.value.mask.Net? && pb < r.value.mask.len
      else forall s :: s in Routes(t) && Covers(s, v) ==> s.mask.Net? && s.mask.len <= pb
  {
    if t.Leaf? {
      UncoveredLeaf(t, v, d);
    } else {
      var c := if Bit(v, t.b) then t.r else t.l;
      var o := if Bit(v, t.b) then t.l else t.r;
      ClimbScanSpec(w, c, t.b, v, d);
      forall s | s in Routes(o) && Covers(s, v) ensures s.mask.Net? && s.mask.len <= t.b {
        OffPathBound(w, t, pb, v, s);
      }
      if ClimbScan(c, v, d).None? {
        MaskListStep(w, t, pb, v, d);
      }
    }
  }

  lemma MaskListStep(w: nat, t: Tree, pb: int, v: Bits, d: nat)
    requires WF(w, t, pb, {}) && t.Node? && |v| == w && ChainTried(Search(t, v), v, d)
    requires forall s :: s in Routes(t) && Covers(s, v) ==> s.mask.Net? && s.mask.len <= t.b
    ensures var r := ScanMaskList(t, t.mk, d);
      if r.Some? then IsLongestMatch(Routes(t), v, r.value) && r.value.mask.Net? && pb < r.value.mask.len
      else forall s :: s in Routes(t) && Covers(s, v) ==> s.mask.Net? && s.mask.len <= pb
  {
    forall a | a in t.mk && a.len == 0 ensures AnnResult(t, a, d) == Some(Route(a.key, Net(0))) {
      ZeroAnnResolves(w, t, pb, a, d);
    }
    ScanMaskListSpec(t, t.mk, d);
    forall s | s in Routes(t) && Covers(s, v) && s.mask.len > pb
      ensures Ann(s.key, s.mask.len) in t.mk && s.mask.len <= d
    {
      CoveringFits(w, t, pb, v, d, s);
    }
    var r := ScanMaskList(t, t.mk, d);
    if r.Some? {
      var a :| a in t.mk && a.len <= d && r.value == Route(a.key, Net(a.len)) &&
        forall a' :: a' in t.mk && a'.len <= d ==> a'.len <= a.len;
      AnnCovers(w, t, pb, v, d, a);
      assert IsLongestMatch(Routes(t), v, r.value);
    }
  }

  /** A covering route below a node that tests past its index passes the bit test. */
  lemma CoveringFits(w: nat, t: Tree, pb: int, v: Bits, d: nat, s: Route)
    requires WF(w, t, pb, {}) && t.Node? && |v| == w && ChainTried(Search(t, v), v, d)
    requires s in Routes(t) && Covers(s, v) && s.mask.Net? && s.mask.len <= t.b
    ensures s.mask.len <= d
  {
    var k, n := Search(t, v).key, s.mask.len;
    KeysShape(w, t, pb, {});
    SearchSpec(w, t, pb, {}, v);
    SamePrefix(s.key, k, t.b);
    SamePrefix(s.key, v, n);
  }

  // ----- Longest-prefix match -----

  /** A mask of the reached leaf that covers `v` and follows no other covering mask wins. */
  lemma LeafRouteLongest(w: nat, top: Tree, v: Bits, i: nat)
    requires WF(w, top, -1, {}) && |v| == w
    requires var leaf := Search(top, v);
      && FirstRoute(leaf) <= i < |leaf.chain|
      && Covers(Route(leaf.key, leaf.chain[i].mask), v)
      && forall j :: FirstRoute(leaf) <= j < i ==> !Covers(Route(leaf.key, leaf.chain[j].mask), v)
    ensures IsLongestMatch(Routes(top), v, Route(Search(top, v).key, Search(top, v).chain[i].mask))
  {
    var leaf := Search(top, v);
    var r := Route(leaf.key, leaf.chain[i].mask);
    SearchSpec(w, top, -1, {}, v);
    KeysShape(w, top, -1, {});
    assert ValidRoute(w, r);
    var q: int :| ChainOk(w, leaf, q, {});
    forall s | s in Routes(top) && Covers(s, v) ensures Rank(s) <= Rank(r) {
      if s.key == leaf.key {
        OwnKeyRoute(w, top, v, s);
        var j :| FirstRoute(leaf) <= j < |leaf.chain| && leaf.chain[j].mask == s.mask;
        assert i == j || Before(leaf.chain[i].mask, leaf.chain[j].mask);
      } else if r.mask.Net? {
        OtherLeafLessSpecific(w, top, -1, v, s, r.mask.len);
      }
    }
  }

  lemma OwnKeyRoute(w: nat, top: Tree, v: Bits, s: Route)
    requires WF(w, top, -1, {}) && |v| == w && s in Routes(top) && s.key == Search(top, v).key
    ensures var leaf := Search(top, v);
      exists j :: FirstRoute(leaf) <= j < |leaf.chain| && leaf.chain[j].mask == s.mask
  {
    SearchSpec(w, top, -1, {}, v);
    SearchOwnKey(w, top, -1, {}, s.key);
    SearchTwice(w, top, -1, v);
  }

  lemma {:induction false} SearchTwice(w: nat, t: Tree, pb: int, v: Bits)
    requires WF(w, t, pb, {}) && |v| == w
    ensures Search(t, Search(t, v).key) == Search(t, v)
  {
    if t.Node? {
      var c := if Bit(v, t.b) then t.r else t.l;
      SearchSpec(w, c, t.b, {}, v);
      SearchTwice(w, c, t.b, v);
    }
  }

  /** The answer a scan of the whole route table would give. */
  ghost predicate AgreesWithTable(table: set<Route>, v: Bits, m: MatchResult) {
    match m
    case Found(r) => IsLongestMatch(table, v, r)
    case _ => forall r :: r in table ==> !Covers(r, v)
  }

  /** The sentinel is reported only for its own key, and only when no route has that key. */
  lemma RootLeafCase(w: nat, top: Tree, v: Bits)
    requires WFTop(w, top, {}) && |v| == w
    requires var leaf := Search(top, v); leaf.key == v && leaf.root && |leaf.chain| == 1
    ensures AllZero(v) || AllOne(v)
    ensures forall r :: r in Routes(top) ==> r.key != v
    ensures AllZero(v) ==> forall r :: r in Routes(top) ==> !Covers(r, v)
  {
    SearchSpec(w, top, -1, {}, v);
    KeysShape(w, top, -1, {});
    forall r | r in Routes(top) ensures r.key != v {
      if r.key == v {
        OwnKeyRoute(w, top, v, r);
        assert false;
      }
    }
    forall r | r in Routes(top) && Covers(r, v) ensures !AllZero(v) {
      if r.mask.Net? {
        SamePrefix(r.key, v, r.mask.len);
      }
      assert AllZero(v) ==> r.key == v;
    }
  }

  /**
   squid_rn_match returns the longest-prefix match over the routes in the tree.  The one
   exception is the all-ones key: its sentinel leaf answers "no route" without looking at
   shorter routes that cover it, unless an all-ones route with a full mask is present.
   */
  lemma MatchIsLongestPrefix(w: nat, top: Tree, v: Bits)
    requires WFTop(w, top, {}) && |v| == w
    ensures |Search(top, v).key| == w && |Search(top, v).chain| > 0
    ensures AgreesWithTable(Routes(top), v, Match(w, top, v)) <==>
            !AllOne(v) || Route(v, Net(w)) in Routes(top) || (forall r :: r in Routes(top) ==> !Covers(r, v))
    ensures Match(w, top, v).RootLeaf? ==> AllZero(v) || AllOne(v)
  {
    SearchSpec(w, top, -1, {}, v);
    KeysShape(w, top, -1, {});
    var leaf := Search(top, v);
    var q: int :| ChainOk(w, leaf, q, {});
    var n := CompareLength(w, leaf);
    if v[..n] == leaf.key[..n] {
      MatchExact(w, top, v, q);
    } else {
      MatchInexact(w, top, v, q);
    }
  }

  lemma MatchExact(w: nat, top: Tree, v: Bits, q: int)
    requires WFTop(w, top, {}) && |v| == w && ChainOk(w, Search(top, v), q, {})
    requires var leaf := Search(top, v); var n := CompareLength(w, leaf); v[..n] == leaf.key[..n]
    ensures AgreesWithTable(Routes(top), v, Match(w, top, v)) <==>
            !AllOne(v) || Route(v, Net(w)) in Routes(top) || (forall r :: r in Routes(top) ==> !Covers(r, v))
    ensures Match(w, top, v).RootLeaf? ==> AllZero(v) || AllOne(v)
  {
    var leaf := Search(top, v);
    if leaf.root && |leaf.chain| == 1 {
      assert v == v[..w] == leaf.key[..w] == leaf.key;
      RootLeafCase(w, top, v);
      assert v[0] || !v[0];
    } else {
      MatchExactRoute(w, top, v, q);
      AllOnesRoute(w, top, v, q);
    }
  }

  lemma MatchExactRoute(w: nat, top: Tree, v: Bits, q: int)
    requires WFTop(w, top, {}) && |v| == w && ChainOk(w, Search(top, v), q, {})
    requires var leaf := Search(top, v); var n := CompareLength(w, leaf);
      v[..n] == leaf.key[..n] && (leaf.root ==> |leaf.chain| > 1)
    ensures var leaf := Search(top, v);
      && Match(w, top, v) == Found(Route(leaf.key, leaf.chain[FirstRoute(leaf)].mask))
      && IsLongestMatch(Routes(top), v, Match(w, top, v).route)
  {
    var leaf := Search(top, v);
    var n := CompareLength(w, leaf);
    assert n == w ==> v == v[..n] == leaf.key[..n] == leaf.key;
    var i := FirstRoute(leaf);
    var r := Route(leaf.key, leaf.chain[i].mask);
    if r.mask.Net? {
      var m := r.mask.len;
      assert ValidRoute(w, r) && m <= n;
      assert v[..m] == v[..n][..m] == leaf.key[..n][..m] == leaf.key[..m];
    }
    LeafRouteLongest(w, top, v, i);
  }

  lemma AllOnesRoute(w: nat, top: Tree, v: Bits, q: int)
    requires WFTop(w, top, {}) && |v| == w && ChainOk(w, Search(top, v), q, {})
    requires Search(top, v).root ==> |Search(top, v).chain| > 1
    ensures AllOne(v) ==> Route(v, Net(w)) in Routes(top)
  {
    if AllOne(v) {
      AllOnesReached(w, top, v);
      SearchSpec(w, top, -1, {}, v);
      var leaf := Search(top, v);
      assert Before(leaf.chain[0].mask, leaf.chain[1].mask);
      var m := leaf.chain[1].mask.len;
      assert ValidRoute(w, Route(v, Net(m)));
      assert v[w - 1];
    }
  }

  lemma MatchInexact(w: nat, top: Tree, v: Bits, q: int)
    requires WFTop(w, top, {}) && |v| == w && ChainOk(w, Search(top, v), q, {})
    requires var leaf := Search(top, v); var n := CompareLength(w, leaf); v[..n] != leaf.key[..n]
    ensures AgreesWithTable(Routes(top), v, Match(w, top, v))
    ensures AllOne(v) ==> Route(v, Net(w)) in Routes(top) || (forall r :: r in Routes(top) ==> !Covers(r, v))
    ensures !Match(w, top, v).RootLeaf?
  {
    var leaf := Search(top, v);
    var d := FirstDiff(v, leaf.key);
    var f := ChainFit(leaf.chain, if leaf.chain[0].mask.Host? then 1 else 0, d);
    AllOnesReached(w, top, v);
    if f.Some? {
      var i := f.value;
      var m := leaf.chain[i].mask.len;
      assert v[..m] == v[..d][..m] == leaf.key[..d][..m] == leaf.key[..m];
      forall j | FirstRoute(leaf) <= j < i ensures !Covers(Route(leaf.key, leaf.chain[j].mask), v) {
        if leaf.chain[j].mask.Net? && leaf.chain[j].mask.len <= w {
          var mj := leaf.chain[j].mask.len;
          assert leaf.key[..mj][d] != v[..mj][d];
        }
      }
      LeafRouteLongest(w, top, v, i);
    } else {
      ClimbScanSpec(w, top, -1, v, d);
    }
  }

  /** Both sentinel keys reach their own leaf, so they always compare equal. */
  lemma AllOnesReached(w: nat, top: Tree, v: Bits)
    requires WFTop(w, top, {}) && |v| == w
    ensures AllOne(v) || AllZero(v) ==> Search(top, v).key == v
  {
    KeysShape(w, top, -1, {});
    if AllOne(v) {
      var k :| k in Keys(top) && AllOne(k);
      assert k == v;
      SearchOwnKey(w, top, -1, {}, v);
    } else if AllZero(v) {
      var k :| k in Keys(top) && AllZero(k);
      assert k == v;
      SearchOwnKey(w, top, -1, {}, v);
    }
  }
}
