/**
 The top-down splay tree of lib/splay.c.
 */
module Splay {
  import opened Basics

  datatype Tree<T> = Leaf | Branch(left: Tree<T>, data: T, right: Tree<T>)

  /** The order in which splay_walk visits a tree. */
  function InOrder<T>(t: Tree<T>): seq<T> {
    if t.Leaf? then [] else InOrder(t.left) + [t.data] + InOrder(t.right)
  }

  function Size<T>(t: Tree<T>): nat {
    if t.Leaf? then 0 else Size(t.left) + 1 + Size(t.right)
  }

  // ----- Order -----

  /** A comparison function that orders its domain. */
  ghost predicate TotalOrder<T(!new)>(compare: (T, T) -> int) {
    && (forall a, b :: compare(a, b) < 0 <==> compare(b, a) > 0)
    && (forall a, b, c :: compare(a, b) <= 0 && compare(b, c) <= 0 ==> compare(a, c) <= 0)
    && (forall a, b, c :: compare(a, b) < 0 && compare(b, c) <= 0 ==> compare(a, c) < 0)
    && (forall a, b, c :: compare(a, b) <= 0 && compare(b, c) < 0 ==> compare(a, c) < 0)
  }

  ghost predicate Ascending<T(!new)>(compare: (T, T) -> int, s: seq<T>) {
    forall i, j :: 0 <= i < j < |s| ==> compare(s[i], s[j]) < 0
  }

  ghost predicate AllBelow<T>(compare: (T, T) -> int, x: T, s: seq<T>) {
    forall y :: y in s ==> compare(x, y) > 0
  }

  ghost predicate AllAbove<T>(compare: (T, T) -> int, x: T, s: seq<T>) {
    forall y :: y in s ==> compare(x, y) < 0
  }

  /** In an ascending sequence, what is before something not above `x` is below `x`, and so on. */
  lemma Around<T(!new)>(compare: (T, T) -> int, x: T, a: seq<T>, y: T, b: seq<T>)
    requires TotalOrder(compare) && Ascending(compare, a + [y] + b)
    ensures Ascending(compare, a) && Ascending(compare, b)
    ensures compare(x, y) >= 0 ==> AllBelow(compare, x, a)
    ensures compare(x, y) <= 0 ==> AllAbove(compare, x, b)
  {
    var s := a + [y] + b;
    forall i, j | 0 <= i < j < |a| ensures compare(a[i], a[j]) < 0 {
      assert a[i] == s[i] && a[j] == s[j];
    }
    forall i, j | 0 <= i < j < |b| ensures compare(b[i], b[j]) < 0 {
      assert b[i] == s[|a| + 1 + i] && b[j] == s[|a| + 1 + j];
    }
    forall z | z in a ensures compare(z, y) < 0 {
      var i :| 0 <= i < |a| && a[i] == z;
      assert s[i] == z && s[|a|] == y;
    }
    forall z | z in b ensures compare(y, z) < 0 {
      var j :| 0 <= j < |b| && b[j] == z;
      assert s[|a| + 1 + j] == z && s[|a|] == y;
    }
  }

  // ----- The two trees being assembled -----

  /** The left tree is a chain of nodes whose right child is the next one; the right tree a
      chain whose left child is the next one.  The last child is still open. */
  function Lefts<T>(ls: seq<(Tree<T>, T)>, hole: Tree<T>): Tree<T> {
    if ls == [] then hole else Branch(ls[0].0, ls[0].1, Lefts(ls[1..], hole))
  }

  function Rights<T>(rs: seq<(T, Tree<T>)>, hole: Tree<T>): Tree<T> {
    if rs == [] then hole else Branch(Rights(rs[1..], hole), rs[0].0, rs[0].1)
  }

  lemma {:induction false} LeftsSnoc<T>(ls: seq<(Tree<T>, T)>, x: (Tree<T>, T), hole: Tree<T>)
    ensures Lefts(ls + [x], hole) == Lefts(ls, Branch(x.0, x.1, hole))
    decreases |ls|
  {
    if ls == [] {
      assert ls + [x] == [x] && [x][1..] == [];
    } else {
      assert (ls + [x])[1..] == ls[1..] + [x];
      LeftsSnoc(ls[1..], x, hole);
    }
  }

  lemma {:induction false} RightsSnoc<T>(rs: seq<(T, Tree<T>)>, x: (T, Tree<T>), hole: Tree<T>)
    ensures Rights(rs + [x], hole) == Rights(rs, Branch(hole, x.0, x.1))
    decreases |rs|
  {
    if rs == [] {
      assert rs + [x] == [x] && [x][1..] == [];
    } else {
      assert (rs + [x])[1..] == rs[1..] + [x];
      RightsSnoc(rs[1..], x, hole);
    }
  }

  lemma {:induction false} LeftsOrder<T>(ls: seq<(Tree<T>, T)>, hole: Tree<T>)
    ensures InOrder(Lefts(ls, hole)) == InOrder(Lefts(ls, Leaf)) + InOrder(hole)
    decreases |ls|
  {
    if ls != [] {
      LeftsOrder(ls[1..], hole);
    }
  }

  lemma {:induction false} RightsOrder<T>(rs: seq<(T, Tree<T>)>, hole: Tree<T>)
    ensures InOrder(Rights(rs, hole)) == InOrder(hole) + InOrder(Rights(rs, Leaf))
    decreases |rs|
  {
    if rs != [] {
      RightsOrder(rs[1..], hole);
    }
  }

  // ----- Nodes -----

  /** splayNode; the data of a node never changes. */
  class Node<T> {
    const data: T
    var left: Node?<T>
    var right: Node?<T>

    constructor (data: T)
      ensures this.data == data && left == null && right == null
    {
      this.data := data;
      left, right := null, null;
    }
  }

  /** A tree of nodes. */
  type Shape<T> = Tree<Node<T>>

  /** The nodes from `n` on have this shape. */
  ghost predicate Is<T>(n: Node?<T>, t: Shape<T>)
    reads set m | m in InOrder(t)
  {
    if t.Leaf? then n == null
    else n == t.data && Is(t.data.left, t.left) && Is(t.data.right, t.right)
  }

  /** The data of a tree of nodes. */
  ghost function Values<T>(t: Shape<T>): Tree<T> {
    if t.Leaf? then Leaf else Branch(Values(t.left), t.data.data, Values(t.right))
  }

  ghost function Data<T>(s: seq<Node<T>>): seq<T> {
    seq(|s|, i requires 0 <= i < |s| => s[i].data)
  }

  lemma {:induction false} ValuesOrder<T>(t: Shape<T>)
    ensures InOrder(Values(t)) == Data(InOrder(t))
  {
    if t.Branch? {
      ValuesOrder(t.left);
      ValuesOrder(t.right);
    }
  }

  lemma Apart<T>(a: seq<Node<T>>, b: seq<Node<T>>, c: seq<Node<T>>)
    requires Distinct(a + b + c)
    ensures Distinct(a) && Distinct(b) && Distinct(c)
    ensures forall m :: m in a ==> m !in b && m !in c
    ensures forall m :: m in b ==> m !in c
  {
    var s := a + b + c;
    assert forall i :: 0 <= i < |a| ==> a[i] == s[i];
    assert forall i :: 0 <= i < |b| ==> b[i] == s[|a| + i];
    assert forall i :: 0 <= i < |c| ==> c[i] == s[|a| + |b| + i];
  }

  // ----- splay_splay -----

  /** Everything in the left tree is below `x`, everything in the right tree above it. */
  ghost predicate Split<T(!new)>(compare: (T, T) -> int, x: T, s: seq<T>, a: seq<T>, top: Tree<T>, b: seq<T>) {
    s == a + InOrder(top) + b && Ascending(compare, InOrder(top)) && AllBelow(compare, x, a) && AllAbove(compare, x, b)
  }

  lemma RotateRight<T>(t: Tree<T>)
    requires t.Branch? && t.left.Branch?
    ensures var y := Branch(t.left.left, t.left.data, Branch(t.left.right, t.data, t.right)); InOrder(y) == InOrder(t) && Size(y) == Size(t)
  {
  }

  lemma RotateLeft<T>(t: Tree<T>)
    requires t.Branch? && t.right.Branch?
    ensures var y := Branch(Branch(t.left, t.data, t.right.left), t.right.data, t.right.right); InOrder(y) == InOrder(t) && Size(y) == Size(t)
  {
  }

  lemma AboveJoin<T>(compare: (T, T) -> int, x: T, a: seq<T>, b: seq<T>)
    requires AllAbove(compare, x, a) && AllAbove(compare, x, b)
    ensures AllAbove(compare, x, a + b)
  {
  }

  lemma BelowJoin<T>(compare: (T, T) -> int, x: T, a: seq<T>, b: seq<T>)
    requires AllBelow(compare, x, a) && AllBelow(compare, x, b)
    ensures AllBelow(compare, x, a + b)
  {
  }

  lemma Regroup<T>(a: seq<T>, l: seq<T>, m: seq<T>, r: seq<T>, b: seq<T>)
    ensures a + (l + m + r) + b == a + l + (m + r + b) == (a + (l + m)) + r + b == (a + l) + m + (r + b)
  {
  }

  /** Linking right: the node and its right subtree go to the right tree. */
  lemma LinkRight<T(!new)>(compare: (T, T) -> int, x: T, s: seq<T>, ls: seq<(Tree<T>, T)>, top: Tree<T>, rs: seq<(T, Tree<T>)>)
    requires TotalOrder(compare) && top.Branch? && compare(x, top.data) < 0
    requires Split(compare, x, s, InOrder(Lefts(ls, Leaf)), top, InOrder(Rights(rs, Leaf)))
    ensures Split(compare, x, s, InOrder(Lefts(ls, Leaf)), top.left, InOrder(Rights(rs + [(top.data, top.right)], Leaf)))
  {
    var a, l, r, b := InOrder(Lefts(ls, Leaf)), InOrder(top.left), InOrder(top.right), InOrder(Rights(rs, Leaf));
    RightsSnoc(rs, (top.data, top.right), Leaf);
    RightsOrder(rs, Branch(Leaf, top.data, top.right));
    assert InOrder(Branch(Leaf, top.data, top.right)) == [top.data] + r;
    assert InOrder(top) == l + [top.data] + r;
    assert AllAbove(compare, x, [top.data]);
    hide TotalOrder, Ascending, AllAbove, AllBelow, InOrder, Lefts, Rights;
    Around(compare, x, l, top.data, r);
    AboveJoin(compare, x, [top.data], r);
    AboveJoin(compare, x, [top.data] + r, b);
    Regroup(a, l, [top.data], r, b);
  }

  lemma LinkLeft<T(!new)>(compare: (T, T) -> int, x: T, s: seq<T>, ls: seq<(Tree<T>, T)>, top: Tree<T>, rs: seq<(T, Tree<T>)>)
    requires TotalOrder(compare) && top.Branch? && compare(x, top.data) > 0
    requires Split(compare, x, s, InOrder(Lefts(ls, Leaf)), top, InOrder(Rights(rs, Leaf)))
    ensures Split(compare, x, s, InOrder(Lefts(ls + [(top.left, top.data)], Leaf)), top.right, InOrder(Rights(rs, Leaf)))
  {
    var a, l, r, b := InOrder(Lefts(ls, Leaf)), InOrder(top.left), InOrder(top.right), InOrder(Rights(rs, Leaf));
    LeftsSnoc(ls, (top.left, top.data), Leaf);
    LeftsOrder(ls, Branch(top.left, top.data, Leaf));
    assert InOrder(Branch(top.left, top.data, Leaf)) == l + [top.data];
    assert InOrder(top) == l + [top.data] + r;
    assert AllBelow(compare, x, [top.data]);
    hide TotalOrder, Ascending, AllAbove, AllBelow, InOrder, Lefts, Rights;
    Around(compare, x, l, top.data, r);
    BelowJoin(compare, x, l, [top.data]);
    BelowJoin(compare, x, a, l + [top.data]);
    Regroup(a, l, [top.data], r, b);
  }

  /** The result of a splay: the same elements in the same order, with the comparison against
      the new root telling on which side of it `x` belongs. */
  ghost predicate Splayed<T(!new)>(compare: (T, T) -> int, x: T, t: Tree<T>, r: Tree<T>, last: int) {
    && r.Branch? && InOrder(r) == InOrder(t) && last == compare(x, r.data)
    && AllBelow(compare, x, InOrder(r.left)) && AllAbove(compare, x, InOrder(r.right))
  }

  /** Where the loop may stop. */
  ghost predicate Stop<T>(compare: (T, T) -> int, x: T, top: Tree<T>, last: int) {
    && top.Branch? && last == compare(x, top.data)
    && (last < 0 ==> top.left.Leaf?) && (last > 0 ==> top.right.Leaf?)
  }

  lemma SplitStart<T(!new)>(compare: (T, T) -> int, x: T, t: Tree<T>)
    requires Ascending(compare, InOrder(t))
    ensures Split(compare, x, InOrder(t), InOrder(Lefts([], Leaf)), t, InOrder(Rights([], Leaf)))
  {
  }

  lemma Assemble<T(!new)>(compare: (T, T) -> int, x: T, s: seq<T>,
      ls: seq<(Tree<T>, T)>, top: Tree<T>, rs: seq<(T, Tree<T>)>, last: int)
    requires TotalOrder(compare) && Stop(compare, x, top, last)
    requires Split(compare, x, s, InOrder(Lefts(ls, Leaf)), top, InOrder(Rights(rs, Leaf)))
    ensures var r := Branch(Lefts(ls, top.left), top.data, Rights(rs, top.right));
      InOrder(r) == s && AllBelow(compare, x, InOrder(r.left)) && AllAbove(compare, x, InOrder(r.right))
  {
    var a, l, r, b := InOrder(Lefts(ls, Leaf)), InOrder(top.left), InOrder(top.right), InOrder(Rights(rs, Leaf));
    LeftsOrder(ls, top.left);
    RightsOrder(rs, top.right);
    assert InOrder(top) == l + [top.data] + r;
    assert InOrder(Branch(Lefts(ls, top.left), top.data, Rights(rs, top.right))) == (a + l) + [top.data] + (r + b);
    assert (last < 0 ==> AllBelow(compare, x, l)) && (last > 0 ==> AllAbove(compare, x, r));
    hide TotalOrder, Ascending, AllAbove, AllBelow, InOrder, Lefts, Rights;
    Around(compare, x, l, top.data, r);
    BelowJoin(compare, x, a, l);
    AboveJoin(compare, x, r, b);
    Regroup(a, l, [top.data], r, b);
  }

  lemma Members<T(!new)>(compare: (T, T) -> int, x: T, a: seq<T>, y: T, b: seq<T>)
    requires AllBelow(compare, x, a) && AllAbove(compare, x, b)
    ensures (exists z :: z in a + [y] + b && compare(x, z) == 0) <==> compare(x, y) == 0
  {
    assert y in a + [y] + b;
  }

  lemma PutBetween<T(!new)>(compare: (T, T) -> int, x: T, a: seq<T>, b: seq<T>)
    requires TotalOrder(compare) && Ascending(compare, a + b) && AllBelow(compare, x, a) && AllAbove(compare, x, b)
    ensures Ascending(compare, a + [x] + b)
  {
    var s, t := a + b, a + [x] + b;
    forall i, j | 0 <= i < j < |t| ensures compare(t[i], t[j]) < 0 {
      if i == |a| {
        assert t[j] in b;
      } else if j == |a| {
        assert t[i] in a;
      } else {
        assert t[i] == s[if i < |a| then i else i - 1] && t[j] == s[if j < |a| then j else j - 1];
      }
    }
  }

  // ----- The chains of nodes -----

  type LeftParts<T> = seq<(Shape<T>, Node<T>)>
  type RightParts<T> = seq<(Node<T>, Shape<T>)>

  ghost function LeftNodes<T>(ls: LeftParts<T>): set<Node<T>> {
    set m | m in InOrder(Lefts(ls, Leaf))
  }

  ghost function RightNodes<T>(rs: RightParts<T>): set<Node<T>> {
    set m | m in InOrder(Rights(rs, Leaf))
  }

  lemma {:induction false} InLefts<T>(ls: LeftParts<T>, i: nat)
    requires i < |ls|
    ensures ls[i].1 in InOrder(Lefts(ls, Leaf))
    ensures forall m :: m in InOrder(ls[i].0) ==> m in InOrder(Lefts(ls, Leaf))
    decreases i
  {
    if i > 0 {
      InLefts(ls[1..], i - 1);
    }
  }

  lemma {:induction false} InRights<T>(rs: RightParts<T>, i: nat)
    requires i < |rs|
    ensures rs[i].0 in InOrder(Rights(rs, Leaf))
    ensures forall m :: m in InOrder(rs[i].1) ==> m in InOrder(Rights(rs, Leaf))
    decreases i
  {
    if i > 0 {
      InRights(rs[1..], i - 1);
    }
  }

  /** The left tree under construction, below the right link of the header. */
  ghost predicate LeftChain<T>(h: Node<T>, ls: LeftParts<T>)
    reads h`right, LeftNodes(ls)
  {
    && (ls != [] ==> h.right == ls[0].1)
    && forall i :: 0 <= i < |ls| ==> (InLefts(ls, i); LeftLink(ls, i))
  }

  ghost predicate LeftLink<T>(ls: LeftParts<T>, i: nat)
    requires i < |ls|
    reads ls[i].1, set m | m in InOrder(ls[i].0)
  {
    Is(ls[i].1.left, ls[i].0) && (i + 1 < |ls| ==> ls[i].1.right == ls[i + 1].1)
  }

  /** The right tree under construction, below the left link of the header. */
  ghost predicate RightChain<T>(h: Node<T>, rs: RightParts<T>)
    reads h`left, RightNodes(rs)
  {
    && (rs != [] ==> h.left == rs[0].0)
    && forall i :: 0 <= i < |rs| ==> (InRights(rs, i); RightLink(rs, i))
  }

  ghost predicate RightLink<T>(rs: RightParts<T>, i: nat)
    requires i < |rs|
    reads rs[i].0, set m | m in InOrder(rs[i].1)
  {
    Is(rs[i].0.right, rs[i].1) && (i + 1 < |rs| ==> rs[i].0.left == rs[i + 1].0)
  }

  lemma {:induction false} LeftsApart<T>(ls: LeftParts<T>, i: nat, j: nat)
    requires i < |ls| && j < |ls| && Distinct(InOrder(Lefts(ls, Leaf)))
    ensures ls[j].1 !in InOrder(ls[i].0) && (i != j ==> ls[i].1 != ls[j].1)
    decreases i + j
  {
    var rest := InOrder(Lefts(ls[1..], Leaf));
    assert InOrder(Lefts(ls, Leaf)) == InOrder(ls[0].0) + [ls[0].1] + rest;
    Apart(InOrder(ls[0].0), [ls[0].1], rest);
    assert ls[0].1 in [ls[0].1];
    if i > 0 {
      InLefts(ls[1..], i - 1);
    }
    if j > 0 {
      InLefts(ls[1..], j - 1);
    }
    if i > 0 && j > 0 {
      LeftsApart(ls[1..], i - 1, j - 1);
    }
  }

  lemma {:induction false} RightsApart<T>(rs: RightParts<T>, i: nat, j: nat)
    requires i < |rs| && j < |rs| && Distinct(InOrder(Rights(rs, Leaf)))
    ensures rs[j].0 !in InOrder(rs[i].1) && (i != j ==> rs[i].0 != rs[j].0)
    decreases i + j
  {
    var rest := InOrder(Rights(rs[1..], Leaf));
    assert InOrder(Rights(rs, Leaf)) == rest + [rs[0].0] + InOrder(rs[0].1);
    Apart(rest, [rs[0].0], InOrder(rs[0].1));
    assert rs[0].0 in [rs[0].0];
    if i > 0 {
      InRights(rs[1..], i - 1);
    }
    if j > 0 {
      InRights(rs[1..], j - 1);
    }
    if i > 0 && j > 0 {
      RightsApart(rs[1..], i - 1, j - 1);
    }
  }

  function LastLeft<T>(ls: LeftParts<T>, h: Node<T>): Node<T> {
    if ls == [] then h else ls[|ls| - 1].1
  }

  function LastRight<T>(rs: RightParts<T>, h: Node<T>): Node<T> {
    if rs == [] then h else rs[|rs| - 1].0
  }

  /** A chain whose last link leads to a tree is a tree. */
  lemma {:induction false} LeftClosed<T>(ls: LeftParts<T>, k: nat, hole: Shape<T>)
    requires k < |ls| && forall i :: k <= i < |ls| ==> LeftLink(ls, i)
    requires Is(ls[|ls| - 1].1.right, hole)
    ensures Is(ls[k].1, Lefts(ls[k..], hole))
    decreases |ls| - k
  {
    assert LeftLink(ls, k);
    if k + 1 < |ls| {
      LeftClosed(ls, k + 1, hole);
      assert ls[k..][1..] == ls[k + 1..];
    } else {
      assert ls[k..][1..] == [];
    }
  }

  lemma {:induction false} RightClosed<T>(rs: RightParts<T>, k: nat, hole: Shape<T>)
    requires k < |rs| && forall i :: k <= i < |rs| ==> RightLink(rs, i)
    requires Is(rs[|rs| - 1].0.left, hole)
    ensures Is(rs[k].0, Rights(rs[k..], hole))
    decreases |rs| - k
  {
    assert RightLink(rs, k);
    if k + 1 < |rs| {
      RightClosed(rs, k + 1, hole);
      assert rs[k..][1..] == rs[k + 1..];
    } else {
      assert rs[k..][1..] == [];
    }
  }

  /** The nodes in the middle of a splay, with the header `h` and the ends of the two trees. */
  ghost predicate Held<T>(h: Node<T>, l: Node<T>, r: Node<T>, top: Node?<T>,
      ls: LeftParts<T>, cur: Shape<T>, rs: RightParts<T>, all: seq<Node<T>>)
    reads h, LeftNodes(ls), RightNodes(rs), set m | m in InOrder(cur)
  {
    && all == InOrder(Lefts(ls, Leaf)) + InOrder(cur) + InOrder(Rights(rs, Leaf)) && Distinct(all) && h !in all
    && l == LastLeft(ls, h) && r == LastRight(rs, h)
    && Is(top, cur) && LeftChain(h, ls) && RightChain(h, rs)
  }

  lemma BranchApart<T>(t: Shape<T>)
    requires t.Branch? && Distinct(InOrder(t))
    ensures Distinct(InOrder(t.left)) && Distinct(InOrder(t.right))
    ensures t.data !in InOrder(t.left) && t.data !in InOrder(t.right)
    ensures forall m :: m in InOrder(t.left) ==> m !in InOrder(t.right)
  {
    Apart(InOrder(t.left), [t.data], InOrder(t.right));
    assert t.data in [t.data];
  }

  /** The chains are apart from the tree between them. */
  lemma ChainsApart<T>(h: Node<T>, l: Node<T>, r: Node<T>, top: Node?<T>,
      ls: LeftParts<T>, cur: Shape<T>, rs: RightParts<T>, all: seq<Node<T>>)
    requires Held(h, l, r, top, ls, cur, rs, all)
    ensures Distinct(InOrder(cur)) && h !in InOrder(cur)
    ensures forall m :: m in InOrder(cur) ==> m !in LeftNodes(ls) && m !in RightNodes(rs)
  {
    Apart(InOrder(Lefts(ls, Leaf)), InOrder(cur), InOrder(Rights(rs, Leaf)));
  }

  lemma RightLonger<T>(ls: LeftParts<T>, cur: Shape<T>, rs: RightParts<T>)
    requires cur.Branch?
    ensures var a, b := InOrder(Lefts(ls, Leaf)), InOrder(Rights(rs, Leaf));
      a + InOrder(cur) + b == a + InOrder(cur.left) + InOrder(Rights(rs + [(cur.data, cur.right)], Leaf))
  {
    var a, b := InOrder(Lefts(ls, Leaf)), InOrder(Rights(rs, Leaf));
    RightsSnoc(rs, (cur.data, cur.right), Leaf);
    RightsOrder(rs, Branch(Leaf, cur.data, cur.right));
    assert InOrder(Branch(Leaf, cur.data, cur.right)) == [cur.data] + InOrder(cur.right);
    Regroup(a, InOrder(cur.left), [cur.data], InOrder(cur.right), b);
  }

  lemma LeftLonger<T>(ls: LeftParts<T>, cur: Shape<T>, rs: RightParts<T>)
    requires cur.Branch?
    ensures var a, b := InOrder(Lefts(ls, Leaf)), InOrder(Rights(rs, Leaf));
      a + InOrder(cur) + b == InOrder(Lefts(ls + [(cur.left, cur.data)], Leaf)) + InOrder(cur.right) + b
  {
    var a, b := InOrder(Lefts(ls, Leaf)), InOrder(Rights(rs, Leaf));
    LeftsSnoc(ls, (cur.left, cur.data), Leaf);
    LeftsOrder(ls, Branch(cur.left, cur.data, Leaf));
    assert InOrder(Branch(cur.left, cur.data, Leaf)) == InOrder(cur.left) + [cur.data];
    Regroup(a, InOrder(cur.left), [cur.data], InOrder(cur.right), b);
  }

  /** The end of the right tree is apart from the rest. */
  lemma RightEnd<T>(h: Node<T>, l: Node<T>, r: Node<T>, top: Node?<T>,
      ls: LeftParts<T>, cur: Shape<T>, rs: RightParts<T>, all: seq<Node<T>>)
    requires Held(h, l, r, top, ls, cur, rs, all)
    ensures r !in InOrder(cur) && r !in LeftNodes(ls)
    ensures rs != [] ==> h != r && r == rs[|rs| - 1].0 && h.left == rs[0].0
    ensures forall i :: 0 <= i < |rs| ==> RightLink(rs, i) && r !in InOrder(rs[i].1)
    ensures forall i :: 0 <= i < |rs| - 1 ==> rs[i].0 != r
  {
    hide Is, RightLink, LeftLink;
    Apart(InOrder(Lefts(ls, Leaf)), InOrder(cur), InOrder(Rights(rs, Leaf)));
    if rs != [] {
      InRights(rs, |rs| - 1);
      forall i | 0 <= i < |rs| ensures r !in InOrder(rs[i].1) && (i < |rs| - 1 ==> rs[i].0 != r) {
        RightsApart(rs, i, |rs| - 1);
      }
    }
  }

  lemma LeftEnd<T>(h: Node<T>, l: Node<T>, r: Node<T>, top: Node?<T>,
      ls: LeftParts<T>, cur: Shape<T>, rs: RightParts<T>, all: seq<Node<T>>)
    requires Held(h, l, r, top, ls, cur, rs, all)
    ensures l !in InOrder(cur) && l !in RightNodes(rs)
    ensures ls != [] ==> h != l && l == ls[|ls| - 1].1 && h.right == ls[0].1
    ensures forall i :: 0 <= i < |ls| ==> LeftLink(ls, i) && l !in InOrder(ls[i].0)
    ensures forall i :: 0 <= i < |ls| - 1 ==> ls[i].1 != l
  {
    hide Is, RightLink, LeftLink;
    Apart(InOrder(Lefts(ls, Leaf)), InOrder(cur), InOrder(Rights(rs, Leaf)));
    if ls != [] {
      InLefts(ls, |ls| - 1);
      forall i | 0 <= i < |ls| ensures l !in InOrder(ls[i].0) && (i < |ls| - 1 ==> ls[i].1 != l) {
        LeftsApart(ls, i, |ls| - 1);
      }
    }
  }

  /** Link right: the top node and its right subtree go under the right tree. */
  method LinkNodesRight<T>(h: Node<T>, l: Node<T>, r: Node<T>, top: Node<T>,
      ghost ls: LeftParts<T>, ghost cur: Shape<T>, ghost rs: RightParts<T>, ghost all: seq<Node<T>>)
    returns (next: Node?<T>)
    requires Held(h, l, r, top, ls, cur, rs, all) && cur.Branch?
    modifies r`left
    ensures Held(h, l, top, next, ls, cur.left, rs + [(top, cur.right)], all)
  {
    RightEnd(h, l, r, top, ls, cur, rs, all);
    RightLonger(ls, cur, rs);
    InsideBranch(cur);
    RootIs(top, cur);
    hide Distinct, LeftLink, LeftChain, LeftNodes, InOrder, Lefts, Rights, Is;
    r.left := top;
    next := top.left;
    assert LeftChain(h, ls);
    ghost var rs' := rs + [(top, cur.right)];
    forall i | 0 <= i < |rs'| ensures RightLink(rs', i) {
      if i < |rs| {
        assert old(RightLink(rs, i));
      }
    }
  }

  method LinkNodesLeft<T>(h: Node<T>, l: Node<T>, r: Node<T>, top: Node<T>,
      ghost ls: LeftParts<T>, ghost cur: Shape<T>, ghost rs: RightParts<T>, ghost all: seq<Node<T>>)
    returns (next: Node?<T>)
    requires Held(h, l, r, top, ls, cur, rs, all) && cur.Branch?
    modifies l`right
    ensures Held(h, top, r, next, ls + [(cur.left, top)], cur.right, rs, all)
  {
    LeftEnd(h, l, r, top, ls, cur, rs, all);
    LeftLonger(ls, cur, rs);
    InsideBranch(cur);
    RootIs(top, cur);
    hide Distinct, RightLink, RightChain, RightNodes, InOrder, Lefts, Rights, Is;
    l.right := top;
    next := top.right;
    assert RightChain(h, rs);
    ghost var ls' := ls + [(cur.left, top)];
    forall i | 0 <= i < |ls'| ensures LeftLink(ls', i) {
      if i < |ls| {
        assert old(LeftLink(ls, i));
      }
    }
  }

  lemma InsideBranch<T>(t: Tree<T>)
    requires t.Branch?
    ensures t.data in InOrder(t)
    ensures forall m :: m in InOrder(t.left) ==> m in InOrder(t)
    ensures forall m :: m in InOrder(t.right) ==> m in InOrder(t)
  {
  }

  /** Rotate right: the left child becomes the root. */
  method RotateNodesRight<T>(h: Node<T>, l: Node<T>, r: Node<T>, top: Node<T>,
      ghost ls: LeftParts<T>, ghost cur: Shape<T>, ghost rs: RightParts<T>, ghost all: seq<Node<T>>)
    returns (y: Node<T>, ghost cur': Shape<T>)
    requires Held(h, l, r, top, ls, cur, rs, all) && cur.Branch? && cur.left.Branch?
    modifies top`left, cur.left.data`right
    ensures Held(h, l, r, y, ls, cur', rs, all)
    ensures cur' == Branch(cur.left.left, cur.left.data, Branch(cur.left.right, cur.data, cur.right))
  {
    ChainsApart(h, l, r, top, ls, cur, rs, all);
    InsideBranch(cur);
    InsideBranch(cur.left);
    BranchApart(cur);
    BranchApart(cur.left);
    RotateRight(cur);
    RootIs(top, cur);
    RootIs(top.left, cur.left);
    hide Distinct, LeftChain, RightChain, InOrder, Lefts, Rights, LeftNodes, RightNodes, Is;
    y := top.left;
    cur' := Branch(cur.left.left, y, Branch(cur.left.right, top, cur.right));
    top.left := y.right;
    assert LeftChain(h, ls) && RightChain(h, rs);
    y.right := top;
    assert LeftChain(h, ls) && RightChain(h, rs);
    MakeIs(top, cur'.right);
    MakeIs(y, cur');
  }

  method RotateNodesLeft<T>(h: Node<T>, l: Node<T>, r: Node<T>, top: Node<T>,
      ghost ls: LeftParts<T>, ghost cur: Shape<T>, ghost rs: RightParts<T>, ghost all: seq<Node<T>>)
    returns (y: Node<T>, ghost cur': Shape<T>)
    requires Held(h, l, r, top, ls, cur, rs, all) && cur.Branch? && cur.right.Branch?
    modifies top`right, cur.right.data`left
    ensures Held(h, l, r, y, ls, cur', rs, all)
    ensures cur' == Branch(Branch(cur.left, cur.data, cur.right.left), cur.right.data, cur.right.right)
  {
    ChainsApart(h, l, r, top, ls, cur, rs, all);
    InsideBranch(cur);
    InsideBranch(cur.right);
    BranchApart(cur);
    BranchApart(cur.right);
    RotateLeft(cur);
    RootIs(top, cur);
    RootIs(top.right, cur.right);
    hide Distinct, LeftChain, RightChain, InOrder, Lefts, Rights, LeftNodes, RightNodes, Is;
    y := top.right;
    cur' := Branch(Branch(cur.left, top, cur.right.left), y, cur.right.right);
    top.right := y.left;
    assert LeftChain(h, ls) && RightChain(h, rs);
    y.left := top;
    assert LeftChain(h, ls) && RightChain(h, rs);
    MakeIs(top, cur'.left);
    MakeIs(y, cur');
  }

  lemma RootIs<T>(n: Node?<T>, t: Shape<T>)
    requires Is(n, t)
    ensures n == null <==> t.Leaf?
    ensures t.Branch? ==> n == t.data && Is(t.data.left, t.left) && Is(t.data.right, t.right)
  {
  }

  lemma MakeIs<T>(n: Node<T>, t: Shape<T>)
    requires t.Branch? && n == t.data && Is(n.left, t.left) && Is(n.right, t.right)
    ensures Is(n, t)
  {
  }

  /** The tree put together at the end. */
  ghost function Assembled<T>(ls: LeftParts<T>, cur: Shape<T>, rs: RightParts<T>): Shape<T>
    requires cur.Branch?
  {
    Branch(Lefts(ls, cur.left), cur.data, Rights(rs, cur.right))
  }

  /** Closing the left tree with the left subtree of the top node. */
  method CloseLeft<T>(h: Node<T>, l: Node<T>, r: Node<T>, top: Node<T>,
      ghost ls: LeftParts<T>, ghost cur: Shape<T>, ghost rs: RightParts<T>, ghost all: seq<Node<T>>)
    requires Held(h, l, r, top, ls, cur, rs, all) && cur.Branch?
    modifies l`right
    ensures Is(h.right, Lefts(ls, cur.left)) && top == cur.data && Is(top.right, cur.right) && RightChain(h, rs)
  {
    LeftEnd(h, l, r, top, ls, cur, rs, all);
    hide Distinct, RightLink, RightChain, InOrder;
    InsideBranch(cur);
    l.right := top.left;
    assert RightChain(h, rs);
    if ls != [] {
      forall i | 0 <= i < |ls| ensures LeftLink(ls, i) {
        assert old(LeftLink(ls, i));
      }
      LeftClosed(ls, 0, cur.left);
      assert ls[0..] == ls;
    }
  }

  method CloseRight<T>(h: Node<T>, r: Node<T>, m: Node?<T>, ghost rs: RightParts<T>, ghost hole: Shape<T>)
    requires RightChain(h, rs) && Is(m, hole) && r == LastRight(rs, h) && r !in InOrder(hole)
    requires rs != [] ==> h != r
    requires forall i :: 0 <= i < |rs| ==> r !in InOrder(rs[i].1)
    requires forall i :: 0 <= i < |rs| - 1 ==> rs[i].0 != r
    modifies r`left
    ensures Is(h.left, Rights(rs, hole))
  {
    hide InOrder;
    r.left := m;
    if rs != [] {
      forall i | 0 <= i < |rs| ensures RightLink(rs, i) {
        assert old(RightLink(rs, i));
      }
      RightClosed(rs, 0, hole);
      assert rs[0..] == rs;
    }
  }

  lemma AssembledOrder<T>(ls: LeftParts<T>, cur: Shape<T>, rs: RightParts<T>)
    requires cur.Branch?
    ensures InOrder(Assembled(ls, cur, rs)) == InOrder(Lefts(ls, Leaf)) + InOrder(cur) + InOrder(Rights(rs, Leaf))
    ensures InOrder(Lefts(ls, cur.left)) == InOrder(Lefts(ls, Leaf)) + InOrder(cur.left)
    ensures InOrder(Rights(rs, cur.right)) == InOrder(cur.right) + InOrder(Rights(rs, Leaf))
  {
    LeftsOrder(ls, cur.left);
    RightsOrder(rs, cur.right);
    Regroup(InOrder(Lefts(ls, Leaf)), InOrder(cur.left), [cur.data], InOrder(cur.right), InOrder(Rights(rs, Leaf)));
  }

  lemma AssembleFacts<T>(h: Node<T>, l: Node<T>, r: Node<T>, top: Node<T>,
      ls: LeftParts<T>, cur: Shape<T>, rs: RightParts<T>, all: seq<Node<T>>)
    requires Held(h, l, r, top, ls, cur, rs, all) && cur.Branch?
    ensures InOrder(Assembled(ls, cur, rs)) == all && top == cur.data && top != h && top != r
    ensures top !in InOrder(Lefts(ls, cur.left)) && top !in InOrder(Rights(rs, cur.right))
    ensures r !in InOrder(Lefts(ls, cur.left)) && r !in InOrder(cur.right)
    ensures forall m :: m in InOrder(Lefts(ls, cur.left)) ==> m in all
    ensures forall m :: m in InOrder(Rights(rs, cur.right)) ==> m in all
  {
    AssembledOrder(ls, cur, rs);
    RightEnd(h, l, r, top, ls, cur, rs, all);
    RootIs(top, cur);
    InsideBranch(cur);
    BranchApart(Assembled(ls, cur, rs));
  }

  method AssembleNodes<T>(h: Node<T>, l: Node<T>, r: Node<T>, top: Node<T>,
      ghost ls: LeftParts<T>, ghost cur: Shape<T>, ghost rs: RightParts<T>, ghost all: seq<Node<T>>)
    requires Held(h, l, r, top, ls, cur, rs, all) && cur.Branch?
    modifies l`right, r`left, top
    ensures Is(top, Assembled(ls, cur, rs)) && InOrder(Assembled(ls, cur, rs)) == all
  {
    AssembleFacts(h, l, r, top, ls, cur, rs, all);
    RightEnd(h, l, r, top, ls, cur, rs, all);
    hide Distinct, InOrder, Lefts, Rights, LeftChain, LeftLink, RightChain, RightLink, Is, LeftNodes, RightNodes;
    ghost var a, b := Lefts(ls, cur.left), Rights(rs, cur.right);
    CloseLeft(h, l, r, top, ls, cur, rs, all);
    CloseRight(h, r, top.right, rs, cur.right);
    assert Is(h.right, a);
    top.left := h.right;
    assert Is(top.left, a) && Is(h.left, b);
    top.right := h.left;
    assert Is(top.left, a) && Is(top.right, b);
    MakeIs(top, Assembled(ls, cur, rs));
  }

  lemma EndsIn<T>(h: Node<T>, l: Node<T>, r: Node<T>, top: Node?<T>,
      ls: LeftParts<T>, cur: Shape<T>, rs: RightParts<T>, all: seq<Node<T>>)
    requires Held(h, l, r, top, ls, cur, rs, all)
    ensures (l == h || l in all) && (r == h || r in all)
    ensures forall m :: m in InOrder(cur) ==> m in all
  {
    if ls != [] {
      InLefts(ls, |ls| - 1);
    }
    if rs != [] {
      InRights(rs, |rs| - 1);
    }
  }

  // ----- The data in the chains -----

  ghost function LeftValues<T>(ls: LeftParts<T>): seq<(Tree<T>, T)> {
    seq(|ls|, i requires 0 <= i < |ls| => (Values(ls[i].0), ls[i].1.data))
  }

  ghost function RightValues<T>(rs: RightParts<T>): seq<(T, Tree<T>)> {
    seq(|rs|, i requires 0 <= i < |rs| => (rs[i].0.data, Values(rs[i].1)))
  }

  lemma {:induction false} ValuesLefts<T>(ls: LeftParts<T>, hole: Shape<T>)
    ensures Values(Lefts(ls, hole)) == Lefts(LeftValues(ls), Values(hole))
    decreases |ls|
  {
    if ls != [] {
      ValuesLefts(ls[1..], hole);
      assert LeftValues(ls)[1..] == LeftValues(ls[1..]);
    }
  }

  lemma {:induction false} ValuesRights<T>(rs: RightParts<T>, hole: Shape<T>)
    ensures Values(Rights(rs, hole)) == Rights(RightValues(rs), Values(hole))
    decreases |rs|
  {
    if rs != [] {
      ValuesRights(rs[1..], hole);
      assert RightValues(rs)[1..] == RightValues(rs[1..]);
    }
  }

  /** The data in the middle of a splay: below `x`, still to search, above `x`. */
  ghost predicate SplitNodes<T(!new)>(compare: (T, T) -> int, x: T, s: seq<T>,
      ls: LeftParts<T>, cur: Shape<T>, rs: RightParts<T>) {
    Split(compare, x, s, InOrder(Lefts(LeftValues(ls), Leaf)), Values(cur), InOrder(Rights(RightValues(rs), Leaf)))
  }

  lemma SplitLinkRight<T(!new)>(compare: (T, T) -> int, x: T, s: seq<T>, ls: LeftParts<T>, cur: Shape<T>, rs: RightParts<T>)
    requires TotalOrder(compare) && cur.Branch? && compare(x, cur.data.data) < 0 && SplitNodes(compare, x, s, ls, cur, rs)
    ensures SplitNodes(compare, x, s, ls, cur.left, rs + [(cur.data, cur.right)])
  {
    LinkRight(compare, x, s, LeftValues(ls), Values(cur), RightValues(rs));
    assert RightValues(rs + [(cur.data, cur.right)]) == RightValues(rs) + [(cur.data.data, Values(cur.right))];
  }

  lemma SplitLinkLeft<T(!new)>(compare: (T, T) -> int, x: T, s: seq<T>, ls: LeftParts<T>, cur: Shape<T>, rs: RightParts<T>)
    requires TotalOrder(compare) && cur.Branch? && compare(x, cur.data.data) > 0 && SplitNodes(compare, x, s, ls, cur, rs)
    ensures SplitNodes(compare, x, s, ls + [(cur.left, cur.data)], cur.right, rs)
  {
    LinkLeft(compare, x, s, LeftValues(ls), Values(cur), RightValues(rs));
    assert LeftValues(ls + [(cur.left, cur.data)]) == LeftValues(ls) + [(Values(cur.left), cur.data.data)];
  }

  lemma SplitTurn<T(!new)>(compare: (T, T) -> int, x: T, s: seq<T>,
      ls: LeftParts<T>, cur: Shape<T>, cur': Shape<T>, rs: RightParts<T>)
    requires SplitNodes(compare, x, s, ls, cur, rs) && InOrder(cur') == InOrder(cur)
    ensures SplitNodes(compare, x, s, ls, cur', rs)
  {
    ValuesOrder(cur);
    ValuesOrder(cur');
  }

  lemma SplitDone<T(!new)>(compare: (T, T) -> int, x: T, t: Shape<T>,
      ls: LeftParts<T>, cur: Shape<T>, rs: RightParts<T>, last: int)
    requires TotalOrder(compare) && cur.Branch? && Stop(compare, x, Values(cur), last)
    requires SplitNodes(compare, x, InOrder(Values(t)), ls, cur, rs)
    ensures Splayed(compare, x, Values(t), Values(Assembled(ls, cur, rs)), last)
  {
    Assemble(compare, x, InOrder(Values(t)), LeftValues(ls), Values(cur), RightValues(rs), last);
    ValuesLefts(ls, cur.left);
    ValuesRights(rs, cur.right);
  }

  // ----- splay_splay -----

  /** splay_splay: the same nodes in the same order, relinked; the second result is splayLastResult. */
  method SplaySplay<T(!new)>(x: T, start: Node?<T>, compare: (T, T) -> int, ghost t: Shape<T>)
    returns (top: Node?<T>, last: int, ghost t': Shape<T>)
    requires TotalOrder(compare) && Ascending(compare, InOrder(Values(t))) && Is(start, t) && Distinct(InOrder(t))
    modifies set m | m in InOrder(t)
    ensures Is(top, t') && InOrder(t') == InOrder(t)
    ensures t.Leaf? ==> top == null && last == -1
    ensures t.Branch? ==> Splayed(compare, x, Values(t), Values(t'), last)
  {
    if start == null {
      return null, -1, t;
    }
    NodesAllocated(t);
    var h := new Node(x);
    var l, r, p: Node<T>, stop := h, h, start, false;
    ghost var ls: LeftParts<T>, cur, rs: RightParts<T>, all, s := [], t, [], InOrder(t), InOrder(Values(t));
    HeldBegin(h, p, t);
    SplitBegin(compare, x, t);
    hide TotalOrder, Ascending, Held, SplitNodes, Is, InOrder, Distinct, Splayed, Stop;
    while true
      invariant cur.Branch? && Held(h, l, r, p, ls, cur, rs, all) && SplitNodes(compare, x, s, ls, cur, rs)
      decreases Size(cur)
    {
      HeldFacts(h, l, r, p, ls, cur, rs, all);
      last := compare(x, p.data);
      if last < 0 {
        stop, last, r, p, cur, rs := GoLeft(x, compare, h, l, r, p, ls, cur, rs, all, s);
      } else if last > 0 {
        stop, last, l, p, cur, ls := GoRight(x, compare, h, l, r, p, ls, cur, rs, all, s);
      } else {
        StopFound(compare, x, cur);
        break;
      }
      if stop {
        break;
      }
    }
    HeldFacts(h, l, r, p, ls, cur, rs, all);
    SplitDone(compare, x, t, ls, cur, rs, last);
    AssembleNodes(h, l, r, p, ls, cur, rs, all);
    top, t' := p, Assembled(ls, cur, rs);
  }

  /** One turn of the loop when `x` is below the top node. */
  method GoLeft<T(!new)>(x: T, compare: (T, T) -> int, h: Node<T>, l: Node<T>, r: Node<T>, p: Node<T>,
      ghost ls: LeftParts<T>, ghost cur: Shape<T>, ghost rs: RightParts<T>, ghost all: seq<Node<T>>, ghost s: seq<T>)
    returns (stop: bool, last: int, r': Node<T>, p': Node<T>, ghost cur': Shape<T>, ghost rs': RightParts<T>)
    requires TotalOrder(compare) && cur.Branch? && Held(h, l, r, p, ls, cur, rs, all) && SplitNodes(compare, x, s, ls, cur, rs)
    requires compare(x, cur.data.data) < 0
    modifies r`left, set m | m in InOrder(cur)
    ensures cur'.Branch? && Held(h, l, r', p', ls, cur', rs', all) && SplitNodes(compare, x, s, ls, cur', rs')
    ensures if stop then Stop(compare, x, Values(cur'), last) else Size(cur') < Size(cur)
  {
    hide TotalOrder, Ascending, Held, SplitNodes, Is, InOrder, Distinct;
    HeldFacts(h, l, r, p, ls, cur, rs, all);
    last, r', p', cur', rs' := compare(x, p.data), r, p, cur, rs;
    if p.left == null {
      return true, last, r', p', cur', rs';
    }
    last := compare(x, p.left.data);
    if last < 0 {
      RotateRight(cur);
      InsideBranch(cur);
      InsideBranch(cur.left);
      p', cur' := RotateNodesRight(h, l, r, p, ls, cur, rs, all);
      SplitTurn(compare, x, s, ls, cur, cur', rs);
      HeldFacts(h, l, r, p', ls, cur', rs, all);
      if p'.left == null {
        return true, last, r', p', cur', rs';
      }
    }
    SplitLinkRight(compare, x, s, ls, cur', rs);
    var next := LinkNodesRight(h, l, r, p', ls, cur', rs, all);
    HeldRoot(h, l, p', next, ls, cur'.left, rs + [(p', cur'.right)], all);
    return false, last, p', next, cur'.left, rs + [(p', cur'.right)];
  }

  method GoRight<T(!new)>(x: T, compare: (T, T) -> int, h: Node<T>, l: Node<T>, r: Node<T>, p: Node<T>,
      ghost ls: LeftParts<T>, ghost cur: Shape<T>, ghost rs: RightParts<T>, ghost all: seq<Node<T>>, ghost s: seq<T>)
    returns (stop: bool, last: int, l': Node<T>, p': Node<T>, ghost cur': Shape<T>, ghost ls': LeftParts<T>)
    requires TotalOrder(compare) && cur.Branch? && Held(h, l, r, p, ls, cur, rs, all) && SplitNodes(compare, x, s, ls, cur, rs)
    requires compare(x, cur.data.data) > 0
    modifies l`right, set m | m in InOrder(cur)
    ensures cur'.Branch? && Held(h, l', r, p', ls', cur', rs, all) && SplitNodes(compare, x, s, ls', cur', rs)
    ensures if stop then Stop(compare, x, Values(cur'), last) else Size(cur') < Size(cur)
  {
    hide TotalOrder, Ascending, Held, SplitNodes, Is, InOrder, Distinct;
    HeldFacts(h, l, r, p, ls, cur, rs, all);
    last, l', p', cur', ls' := compare(x, p.data), l, p, cur, ls;
    if p.right == null {
      return true, last, l', p', cur', ls';
    }
    last := compare(x, p.right.data);
    if last > 0 {
      RotateLeft(cur);
      InsideBranch(cur);
      InsideBranch(cur.right);
      p', cur' := RotateNodesLeft(h, l, r, p, ls, cur, rs, all);
      SplitTurn(compare, x, s, ls, cur, cur', rs);
      HeldFacts(h, l, r, p', ls, cur', rs, all);
      if p'.right == null {
        return true, last, l', p', cur', ls';
      }
    }
    SplitLinkLeft(compare, x, s, ls, cur', rs);
    var next := LinkNodesLeft(h, l, r, p', ls, cur', rs, all);
    HeldRoot(h, p', r, next, ls + [(cur'.left, p')], cur'.right, rs, all);
    return false, last, p', next, cur'.right, ls + [(cur'.left, p')];
  }

  lemma {:induction false} NodesAllocated<T>(t: Shape<T>)
    ensures forall m :: m in InOrder(t) ==> allocated(m)
  {
    if t.Branch? {
      NodesAllocated(t.left);
      NodesAllocated(t.right);
    }
  }

  lemma StopFound<T>(compare: (T, T) -> int, x: T, cur: Shape<T>)
    requires cur.Branch? && compare(x, cur.data.data) == 0
    ensures Stop(compare, x, Values(cur), compare(x, cur.data.data))
  {
  }

  lemma HeldBegin<T>(h: Node<T>, p: Node<T>, t: Shape<T>)
    requires Is(p, t) && Distinct(InOrder(t)) && h !in InOrder(t)
    ensures t.Branch? && Held(h, h, h, p, [], t, [], InOrder(t))
  {
    assert InOrder(Lefts<Node<T>>([], Leaf)) + InOrder(t) + InOrder(Rights<Node<T>>([], Leaf)) == InOrder(t);
  }

  lemma HeldRoot<T>(h: Node<T>, l: Node<T>, r: Node<T>, top: Node?<T>,
      ls: LeftParts<T>, cur: Shape<T>, rs: RightParts<T>, all: seq<Node<T>>)
    requires Held(h, l, r, top, ls, cur, rs, all)
    ensures top == null <==> cur.Leaf?
  {
    RootIs(top, cur);
  }

  lemma HeldFacts<T>(h: Node<T>, l: Node<T>, r: Node<T>, top: Node?<T>,
      ls: LeftParts<T>, cur: Shape<T>, rs: RightParts<T>, all: seq<Node<T>>)
    requires Held(h, l, r, top, ls, cur, rs, all) && cur.Branch?
    ensures top == cur.data && top in all && (l == h || l in all) && (r == h || r in all)
    ensures top.left == (if cur.left.Leaf? then null else cur.left.data)
    ensures top.right == (if cur.right.Leaf? then null else cur.right.data)
    ensures cur.left.Branch? ==> cur.left.data in all
    ensures cur.right.Branch? ==> cur.right.data in all
  {
    EndsIn(h, l, r, top, ls, cur, rs, all);
    RootIs(top, cur);
    RootIs(top.left, cur.left);
    RootIs(top.right, cur.right);
    InsideBranch(cur);
    if cur.left.Branch? {
      InsideBranch(cur.left);
    }
    if cur.right.Branch? {
      InsideBranch(cur.right);
    }
  }

  lemma SplitBegin<T(!new)>(compare: (T, T) -> int, x: T, t: Shape<T>)
    requires Ascending(compare, InOrder(Values(t)))
    ensures SplitNodes(compare, x, InOrder(Values(t)), [], t, [])
  {
    SplitStart(compare, x, Values(t));
    assert LeftValues<T>([]) == [] && RightValues<T>([]) == [];
  }

  // ----- splay_insert and splay_walk -----

  /** The tree with a new root between the two sides of the old one. */
  ghost function Rooted<T>(n: Node<T>, t: Shape<T>, last: int): Shape<T>
    requires t.Branch?
  {
    if last < 0 then Branch(t.left, n, Branch(Leaf, t.data, t.right)) else Branch(Branch(t.left, t.data, Leaf), n, t.right)
  }

  lemma RootedOrder<T(!new)>(compare: (T, T) -> int, n: Node<T>, t: Shape<T>, s: Tree<T>, last: int)
    requires TotalOrder(compare) && t.Branch? && n !in InOrder(t) && Distinct(InOrder(t)) && last != 0
    requires Ascending(compare, InOrder(s)) && Splayed(compare, n.data, s, Values(t), last)
    ensures var r := Rooted(n, t, last);
      && Distinct(InOrder(r)) && Ascending(compare, InOrder(Values(r))) && InOrder(t) == InOrder(r.left) + InOrder(r.right)
      && AllBelow(compare, n.data, InOrder(Values(r.left))) && AllAbove(compare, n.data, InOrder(Values(r.right)))
      && !exists y :: y in InOrder(s) && compare(n.data, y) == 0
  {
    var v, r := Values(t), Rooted(n, t, last);
    var x, a, m, b := n.data, InOrder(v.left), t.data.data, InOrder(v.right);
    assert v == Branch(v.left, m, v.right) && compare(x, m) == last;
    assert InOrder(s) == a + [m] + b;
    assert InOrder(r.left) + InOrder(r.right) == InOrder(t);
    DistinctInsert(InOrder(r.left), n, InOrder(r.right));
    RootedValues(n, t, last);
    assert last < 0 ==> AllAbove(compare, x, [m]);
    assert last > 0 ==> AllBelow(compare, x, [m]);
    assert InOrder(Values(r.left)) + InOrder(Values(r.right)) == InOrder(s);
    hide TotalOrder, Ascending, Distinct, AllAbove, AllBelow, InOrder, Splayed;
    Members(compare, x, a, m, b);
    if last < 0 {
      AboveJoin(compare, x, [m], b);
    } else {
      BelowJoin(compare, x, a, [m]);
    }
    PutBetween(compare, x, InOrder(Values(r.left)), InOrder(Values(r.right)));
    InOrderBranch(Values(r));
  }

  lemma RootedValues<T>(n: Node<T>, t: Shape<T>, last: int)
    requires t.Branch?
    ensures var r, m := Values(Rooted(n, t, last)), t.data.data;
      && InOrder(r.left) == InOrder(Values(t.left)) + (if last < 0 then [] else [m])
      && InOrder(r.right) == (if last < 0 then [m] else []) + InOrder(Values(t.right))
  {
    var r := Rooted(n, t, last);
    ValuesBranch(r);
    if last < 0 {
      ValuesBranch(r.right);
      InOrderBranch(Values(r.right));
    } else {
      ValuesBranch(r.left);
      InOrderBranch(Values(r.left));
    }
  }

  lemma ValuesBranch<T>(t: Shape<T>)
    requires t.Branch?
    ensures Values(t) == Branch(Values(t.left), t.data.data, Values(t.right))
    ensures t.left.Leaf? ==> InOrder(Values(t.left)) == []
    ensures t.right.Leaf? ==> InOrder(Values(t.right)) == []
  {
  }

  lemma InOrderBranch<T>(t: Tree<T>)
    requires t.Branch?
    ensures InOrder(t) == InOrder(t.left) + [t.data] + InOrder(t.right)
  {
  }

  lemma DistinctInsert<T>(a: seq<Node<T>>, n: Node<T>, b: seq<Node<T>>)
    requires Distinct(a + b) && n !in a + b
    ensures Distinct(a + [n] + b)
  {
    var s, t := a + b, a + [n] + b;
    forall i, j | 0 <= i < j < |t| ensures t[i] != t[j] {
      if i == |a| {
        assert t[j] == s[j - 1];
      } else if j == |a| {
        assert t[i] == s[i];
      } else {
        assert t[i] == s[if i < |a| then i else i - 1] && t[j] == s[if j < |a| then j else j - 1];
      }
    }
  }

  /** A key is in the tree already. */
  ghost predicate Present<T>(compare: (T, T) -> int, x: T, t: Tree<T>) {
    exists y :: y in InOrder(t) && compare(x, y) == 0
  }

  /** splay_insert: a new node goes to its place, a duplicate changes nothing. */
  method SplayInsert<T(!new)>(x: T, start: Node?<T>, compare: (T, T) -> int, ghost t: Shape<T>)
    returns (root: Node<T>, ghost t': Shape<T>)
    requires TotalOrder(compare) && Ascending(compare, InOrder(Values(t))) && Is(start, t) && Distinct(InOrder(t))
    modifies set m | m in InOrder(t)
    ensures Is(root, t') && t'.Branch? && Distinct(InOrder(t')) && Ascending(compare, InOrder(Values(t')))
    ensures Present(compare, x, Values(t)) ==> InOrder(t') == InOrder(t) && compare(x, root.data) == 0
    ensures !Present(compare, x, Values(t)) ==>
              && fresh(root) && root.data == x && InOrder(t) == InOrder(t'.left) + InOrder(t'.right)
              && AllBelow(compare, x, InOrder(Values(t'.left))) && AllAbove(compare, x, InOrder(Values(t'.right)))
  {
    NodesAllocated(t);
    var n := new Node(x);
    var top, last;
    ghost var u;
    top, last, u := SplaySplay(x, start, compare, t);
    if top == null {
      root, t' := n, Branch(Leaf, n, Leaf);
      return;
    }
    RootIs(top, u);
    BranchApart(u);
    InsideBranch(u);
    ValuesOrder(t);
    ValuesOrder(u);
    if last == 0 {
      InsideBranch(Values(u));
      return top, u;
    }
    RootedOrder(compare, n, u, Values(t), last);
    hide TotalOrder, Ascending, Distinct, Is, InOrder, AllAbove, AllBelow, Splayed;
    PutRoot(n, top, last, u);
    root, t' := n, Rooted(n, u, last);
  }

  method PutRoot<T>(n: Node<T>, top: Node<T>, last: int, ghost u: Shape<T>)
    requires u.Branch? && Is(top, u) && Distinct(InOrder(u)) && n !in InOrder(u) && last != 0
    modifies n, top
    ensures Is(n, Rooted(n, u, last))
  {
    RootIs(top, u);
    BranchApart(u);
    InsideBranch(u);
    hide Distinct, Is, InOrder;
    EmptyIs<T>();
    ghost var r := Rooted(n, u, last);
    if last < 0 {
      n.left := top.left;
      n.right := top;
      top.left := null;
      MakeIs(top, r.right);
    } else {
      n.right := top.right;
      n.left := top;
      top.right := null;
      MakeIs(top, r.left);
    }
    MakeIs(n, r);
  }

  lemma NothingThere<T>(t: Shape<T>)
    requires Is(null, t)
    ensures InOrder(Values(t)) == []
  {
  }

  lemma EmptyIs<T>()
    ensures Is<T>(null, Leaf)
  {
  }

  /** splay_walk: the walkee sees the data in order. */
  method SplayWalk<T>(top: Node<T>, seen: seq<T>, ghost t: Shape<T>) returns (seen': seq<T>)
    requires Is(top, t)
    ensures seen' == seen + InOrder(Values(t))
    decreases t
  {
    RootIs(top, t);
    NodesAllocated(t.right);
    hide Is, InOrder;
    InOrderBranch(Values(t));
    seen' := seen;
    if top.left != null {
      seen' := SplayWalk(top.left, seen', t.left);
    } else {
      NothingThere(t.left);
    }
    seen' := seen' + [top.data];
    if top.right != null {
      seen' := SplayWalk(top.right, seen', t.right);
    } else {
      NothingThere(t.right);
    }
  }
}
