/**
 squid_rn_addroute and squid_rn_delete of lib/radix.c as functions of the tree, step by step.
 */
module RadixUpdate {
  import opened Basics
  import opened RadixTree
  import opened RadixMatch

  // ----- Mask lists -----

  /** Insert by index; an equal index is the "non-unique normal route" case: not entered. */
  function MkInsert(mk: seq<Ann>, a: Ann): Option<seq<Ann>> {
    if mk == [] then Some([a])
    else if mk[0].len > a.len then
      var rest := MkInsert(mk[1..], a);
      if rest.None? then None else Some([mk[0]] + rest.value)
    else if mk[0].len < a.len then Some([a] + mk)
    else None
  }

  function MkRemove(mk: seq<Ann>, a: Ann): Option<seq<Ann>> {
    if mk == [] then None
    else if mk[0] == a then Some(mk[1..])
    else
      var rest := MkRemove(mk[1..], a);
      if rest.None? then None else Some([mk[0]] + rest.value)
  }

  /** Position of the first annotation whose index is at most `b`. */
  function MkSplit(mk: seq<Ann>, b: nat): (i: nat)
    ensures i <= |mk|
    ensures forall j :: 0 <= j < i ==> mk[j].len > b
    ensures i < |mk| ==> mk[i].len <= b
  {
    if mk == [] || mk[0].len <= b then 0 else MkSplit(mk[1..], b) + 1
  }

  // ----- Insertion -----

  /** Lift the masks of a leaf chain that a new parent testing bit `b` can hold. */
  function PromoteChain(key: Bits, chain: seq<Entry>, b: nat): (seq<Ann>, seq<Entry>) {
    if chain == [] then ([], [])
    else
      var (mk, rest) := PromoteChain(key, chain[1..], b);
      var e := chain[0];
      if e.mask.Net? && e.mask.len <= b && !e.lifted
      then ([Ann(key, e.mask.len)] + mk, [Entry(e.mask, true)] + rest)
      else (mk, [e] + rest)
  }

  /** "Promote general routes from below": the new node's mask list and its old child. */
  function Promote(x: Tree, b: nat): (seq<Ann>, Tree) {
    match x
    case Leaf(key, root, chain) =>
      var (mk, chain') := PromoteChain(key, chain, b);
      (mk, Leaf(key, root, chain'))
    case Node(xb, mk, l, r) =>
      var i := MkSplit(mk, b);
      (mk[i..], Node(xb, mk[..i], l, r))
  }

  /** squid_rn_newpair above subtree `x`. */
  function NewPair(x: Tree, k: Bits, b: nat, mask: Mask): Tree {
    var (mk, x') := Promote(x, b);
    var leaf := Leaf(k, false, [Entry(mask, false)]);
    if Bit(k, b) then Node(b, mk, x', leaf) else Node(b, mk, leaf, x')
  }

  /** squid_rn_insert of a new key that first differs from the tree at bit `b`. */
  function InsertLeaf(t: Tree, k: Bits, b: nat, mask: Mask): Tree {
    if t.Leaf? || b <= t.b then NewPair(t, k, b, mask)
    else WithTaken(t, k, InsertLeaf(Taken(t, k), k, b, mask))
  }

  /** Replace the chain of the leaf that `k` reaches. */
  function SetChain(t: Tree, k: Bits, chain: seq<Entry>): Tree {
    match t
    case Leaf(key, root, _) => Leaf(key, root, chain)
    case Node(_, _, _, _) => WithTaken(t, k, SetChain(Taken(t, k), k, chain))
  }

  /** Where a mask goes in a duped-key chain; nothing if the chain has it already. */
  function ChainInsert(chain: seq<Entry>, mask: Mask): Option<seq<Entry>> {
    if chain == [] then Some([Entry(mask, false)])
    else if chain[0].mask == mask then None
    else if mask.Host? || (chain[0].mask.Net? && mask.len > chain[0].mask.len) then Some([Entry(mask, false)] + chain)
    else
      var rest := ChainInsert(chain[1..], mask);
      if rest.None? then None else Some([chain[0]] + rest.value)
  }

  function MarkLifted(chain: seq<Entry>, mask: Mask): seq<Entry> {
    seq(|chain|, i requires 0 <= i < |chain| => if chain[i].mask == mask then Entry(mask, true) else chain[i])
  }

  /** Add the route's mask to the list of the highest node on its path that tests at or
      past its index; below the leaf's parent it cannot be lifted at all. */
  function Lift(t: Tree, k: Bits, m: nat): Tree {
    match t
    case Leaf(_, _, _) => t
    case Node(b, mk, l, r) =>
      if m <= b then
        var mk' := MkInsert(mk, Ann(k, m));
        if mk'.None? then t
        else SetChain(Node(b, mk'.value, l, r), k, MarkLifted(Search(t, k).chain, Net(m)))
      else WithTaken(t, k, Lift(Taken(t, k), k, m))
  }

  /** squid_rn_addroute; nothing when it returns 0. */
  function AddRoute(top: Tree, k: Bits, mask: Mask): Option<Tree>
    requires |Search(top, k).key| == |k|
  {
    var leaf := Search(top, k);
    if leaf.key == k then
      var chain := ChainInsert(leaf.chain, mask);
      if chain.None? then None
      else
        var t := SetChain(top, k, chain.value);
        Some(if mask.Host? then t else Lift(t, k, mask.len))
    else
      var t := InsertLeaf(top, k, FirstDiff(k, leaf.key), mask);
      Some(if mask.Host? then t else Lift(t, k, mask.len))
  }

  // ----- Deletion -----

  /** Take the annotation off the node it was lifted to. */
  function Unlift(t: Tree, k: Bits, m: nat): Tree {
    match t
    case Leaf(_, _, _) => t
    case Node(b, mk, l, r) =>
      if m <= b then
        var mk' := MkRemove(mk, Ann(k, m));
        if mk'.None? then t else Node(b, mk'.value, l, r)
      else WithTaken(t, k, Unlift(Taken(t, k), k, m))
  }

  /** Unmark the chain entries whose annotations are in `mk`; also what is left of `mk`. */
  function DemoteChain(key: Bits, chain: seq<Entry>, mk: seq<Ann>): (seq<Entry>, seq<Ann>) {
    if chain == [] || mk == [] then (chain, mk)
    else if chain[0].lifted && chain[0].mask.Net? && mk[0] == Ann(key, chain[0].mask.len) then
      var (rest, left) := DemoteChain(key, chain[1..], mk[1..]);
      ([Entry(chain[0].mask, false)] + rest, left)
    else
      var (rest, left) := DemoteChain(key, chain[1..], mk);
      ([chain[0]] + rest, left)
  }

  /** "Demote routes attached to us" to the surviving child. */
  function Demote(x: Tree, mk: seq<Ann>): Tree {
    match x
    case Leaf(key, root, chain) => Leaf(key, root, DemoteChain(key, chain, mk).0)
    case Node(b, mkx, l, r) => Node(b, mkx + mk, l, r)
  }

  /** Unlink a leaf together with its parent. */
  function RemoveLeaf(t: Tree, k: Bits): Tree {
    if t.Leaf? then t
    else if Taken(t, k).Leaf? then Demote(Spared(t, k), t.mk)
    else WithTaken(t, k, RemoveLeaf(Taken(t, k), k))
  }

  /** Chain position that a deletion addresses: the named mask, or the head if none is. */
  function DeletePosition(chain: seq<Entry>, mask: Mask): (r: Option<nat>)
    ensures r.Some? && chain != [] ==> r.value < |chain| && (mask.Net? ==> chain[r.value].mask == mask)
    ensures mask.Net? && r.None? ==> forall i :: 0 <= i < |chain| ==> chain[i].mask != mask
    ensures mask.Host? ==> r == Some(0)
  {
    if mask.Host? then Some(0)
    else if chain == [] then None
    else if chain[0].mask == mask then Some(0)
    else
      var r := DeletePosition(chain[1..], mask);
      if r.None? then None else Some(r.value + 1)
  }

  /** squid_rn_delete: the new tree and the route taken out; nothing when it returns 0. */
  function DeleteRoute(top: Tree, k: Bits, mask: Mask): Option<(Tree, Route)>
    requires |Search(top, k).chain| > 0
  {
    var leaf := Search(top, k);
    if leaf.key != k then None
    else
      var i := DeletePosition(leaf.chain, mask);
      if i.None? || (leaf.root && i.value == 0) then None
      else
        var e := leaf.chain[i.value];
        var t := if e.mask.Net? && e.lifted then Unlift(top, k, e.mask.len) else top;
        var t' := if |leaf.chain| > 1 then SetChain(t, k, leaf.chain[..i.value] + leaf.chain[i.value + 1..])
                  else RemoveLeaf(t, k);
        Some((t', Route(k, e.mask)))
  }
}
