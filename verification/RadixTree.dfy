/**
 The PATRICIA routing tree of lib/radix.c: keys, routes, tree nodes, and the
 invariant that its header comment describes.  Keys are fixed-width bit strings
 (bit 0 is the highest-order bit after the head offset) and masks are contiguous,
 so a mask is its index.
 */
module RadixTree {

  type Bits = seq<bool>

  /** `rn_mask`: absent for a host route, otherwise the index of a contiguous mask. */
  datatype Mask = Host | Net(len: nat)

  datatype Route = Route(key: Bits, mask: Mask)

  /** One leaf of a duped-key chain; `lifted` says that its `rn_mklist` is set. */
  datatype Entry = Entry(mask: Mask, lifted: bool)

  /** An annotation on an internal node's mask list; it names the leaf (key, len). */
  datatype Ann = Ann(key: Bits, len: nat)

  /** `root` marks the two sentinel leaves; the head of their chain is the sentinel. */
  datatype Tree =
    | Leaf(key: Bits, root: bool, chain: seq<Entry>)
    | Node(b: nat, mk: seq<Ann>, l: Tree, r: Tree)

  predicate Bit(v: Bits, i: nat) {
    i < |v| && v[i]
  }

  predicate AllZero(k: Bits) {
    forall i :: 0 <= i < |k| ==> !k[i]
  }

  predicate AllOne(k: Bits) {
    forall i :: 0 <= i < |k| ==> k[i]
  }

  /** The child that the search for `k` takes, the one it leaves, and a new child taken. */
  function Taken(t: Tree, k: Bits): Tree
    requires t.Node?
  {
    if Bit(k, t.b) then t.r else t.l
  }

  function Spared(t: Tree, k: Bits): Tree
    requires t.Node?
  {
    if Bit(k, t.b) then t.l else t.r
  }

  function WithTaken(t: Tree, k: Bits, c: Tree): Tree
    requires t.Node?
  {
    if Bit(k, t.b) then Node(t.b, t.mk, t.l, c) else Node(t.b, t.mk, c, t.r)
  }

  // ----- What the tree stands for -----

  /** First chain position that holds a route: the sentinel is not one. */
  function FirstRoute(t: Tree): nat
    requires t.Leaf?
  {
    if t.root then 1 else 0
  }

  ghost function Routes(t: Tree): set<Route> {
    match t
    case Leaf(key, root, chain) => set i | FirstRoute(t) <= i < |chain| :: Route(key, chain[i].mask)
    case Node(_, _, l, r) => Routes(l) + Routes(r)
  }

  ghost function Keys(t: Tree): set<Bits> {
    match t
    case Leaf(key, _, _) => {key}
    case Node(_, _, l, r) => Keys(l) + Keys(r)
  }

  predicate Covers(r: Route, v: Bits) {
    |r.key| == |v| &&
    match r.mask
    case Host => r.key == v
    case Net(m) => m <= |v| && r.key[..m] == v[..m]
  }

  /** The requirement `key & mask == key` on a route. */
  ghost predicate ValidRoute(w: nat, r: Route) {
    && |r.key| == w
    && (r.mask.Net? ==> r.mask.len <= w && forall i :: r.mask.len <= i < w ==> !r.key[i])
  }

  /** How specific a route is: a host route beats every mask. */
  function Rank(r: Route): nat {
    match r.mask
    case Host => |r.key| + 1
    case Net(m) => m
  }

  // ----- The invariant -----

  /** Chains and mask lists run from most to least specific. */
  predicate Before(a: Mask, b: Mask) {
    b.Net? && (a.Host? || a.len > b.len)
  }

  ghost predicate ChainOk(w: nat, t: Tree, pb: int, miss: set<Route>)
    requires t.Leaf?
  {
    && |t.key| == w
    && |t.chain| > 0
    && (t.root ==> t.chain[0].mask.Host?)
    && (t.root <==> AllZero(t.key) || AllOne(t.key))
    && (forall i, j :: 0 <= i < j < |t.chain| ==> Before(t.chain[i].mask, t.chain[j].mask))
    && (forall i :: 0 <= i < |t.chain| ==> ValidRoute(w, Route(t.key, t.chain[i].mask)))
    && (forall i :: 0 <= i < |t.chain| && Route(t.key, t.chain[i].mask) !in miss ==>
          (t.chain[i].lifted <==> t.chain[i].mask.Net? && t.chain[i].mask.len <= pb))
  }

  ghost predicate Descending(mk: seq<Ann>) {
    forall i, j :: 0 <= i < j < |mk| ==> mk[i].len > mk[j].len
  }

  /** `mk` annotates exactly the routes `rs` whose index lies above the parent's bit and
      not above the node's own: this node is the highest ancestor they can be lifted to. */
  ghost predicate MaskListOk(mk: seq<Ann>, rs: set<Route>, pb: int, b: int, miss: set<Route>) {
    && Descending(mk)
    && (forall a :: a in mk ==> Route(a.key, Net(a.len)) in rs - miss && pb < a.len <= b)
    && (forall r :: r in rs - miss && r.mask.Net? && pb < r.mask.len <= b ==> Ann(r.key, r.mask.len) in mk)
  }

  ghost predicate Agree(ks: set<Bits>, b: nat) {
    forall k, k' :: k in ks && k' in ks ==> b <= |k| && b <= |k'| && k[..b] == k'[..b]
  }

  /**
   The tree invariant below a parent that tests bit `pb` (-1 above the top node).
   Routes in `miss` are allowed to be without their annotation: an insertion or a
   deletion is between its two steps.
   */
  ghost predicate WF(w: nat, t: Tree, pb: int, miss: set<Route>) {
    match t
    case Leaf(_, _, _) => ChainOk(w, t, pb, miss)
    case Node(b, mk, l, r) =>
      && pb < b < w
      && WF(w, l, b, miss) && WF(w, r, b, miss)
      && (forall k :: k in Keys(l) ==> !Bit(k, b))
      && (forall k :: k in Keys(r) ==> Bit(k, b))
      && Agree(Keys(t), b)
      && MaskListOk(mk, Routes(t), pb, b, miss)
  }

  /** A whole tree: its top node tests bit 0 and both sentinels are present. */
  ghost predicate WFTop(w: nat, t: Tree, miss: set<Route>) {
    && t.Node? && t.b == 0
    && WF(w, t, -1, miss)
    && (exists k :: k in Keys(t) && AllZero(k))
    && (exists k :: k in Keys(t) && AllOne(k))
  }

  // ----- Basic facts -----

  lemma {:induction false} KeysShape(w: nat, t: Tree, pb: int, miss: set<Route>)
    requires WF(w, t, pb, miss)
    ensures Keys(t) != {}
    ensures forall k :: k in Keys(t) ==> |k| == w
    ensures forall r :: r in Routes(t) ==> ValidRoute(w, r) && r.key in Keys(t)
  {
    if t.Node? {
      KeysShape(w, t.l, t.b, miss);
      KeysShape(w, t.r, t.b, miss);
    }
  }

  lemma SamePrefix(a: Bits, b: Bits, n: nat)
    requires n <= |a| && n <= |b| && a[..n] == b[..n]
    ensures forall i :: 0 <= i < n ==> a[i] == b[i]
  {
    forall i | 0 <= i < n ensures a[i] == b[i] {
      assert a[..n][i] == b[..n][i];
    }
  }

  /** Two valid net routes that share mask and covered key are the same route. */
  lemma CoveredOnce(w: nat, r: Route, s: Route, v: Bits)
    requires ValidRoute(w, r) && ValidRoute(w, s) && |v| == w
    requires Covers(r, v) && Covers(s, v) && r.mask == s.mask
    ensures r == s
  {
    if r.mask.Net? {
      var m := r.mask.len;
      forall i | 0 <= i < w ensures r.key[i] == s.key[i] {
        if i < m {
          assert r.key[..m][i] == v[..m][i] == s.key[..m][i];
        }
      }
      assert r.key == s.key;
    }
  }

  /** The most specific route of a table that covers `v`. */
  ghost predicate IsLongestMatch(table: set<Route>, v: Bits, r: Route) {
    r in table && Covers(r, v) && forall s :: s in table && Covers(s, v) ==> Rank(s) <= Rank(r)
  }

  /** Longest match is a function of table and key: at most one route qualifies. */
  lemma LongestMatchUnique(w: nat, table: set<Route>, v: Bits, r: Route, s: Route)
    requires |v| == w && forall x :: x in table ==> ValidRoute(w, x)
    requires IsLongestMatch(table, v, r) && IsLongestMatch(table, v, s)
    ensures r == s
  {
    assert Rank(r) == Rank(s);
    assert r.mask == s.mask;
    CoveredOnce(w, r, s, v);
  }
}
