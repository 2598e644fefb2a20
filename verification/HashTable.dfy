/**
 The chained hash table of lib/hash.c with its iterator.
 */
module HashTable {
  import opened Basics

  const DEFAULT_HASH_SIZE := 7951

  /** A link: an object of its own, with a key or none. */
  class Link<K> {
    const key: Option<K>

    constructor (k: Option<K>)
      ensures key == k
    {
      key := k;
    }
  }

  // ----- Chains -----

  function Without<T(==)>(s: seq<T>, x: T): (r: seq<T>) {
    if s == [] then [] else (if s[0] == x then [] else [s[0]]) + Without(s[1..], x)
  }

  lemma {:induction false} WithoutMembers<T>(s: seq<T>, x: T)
    ensures forall y :: y in Without(s, x) <==> y in s && y != x
  {
    if s != [] {
      WithoutMembers(s[1..], x);
      assert s == [s[0]] + s[1..];
    }
  }

  lemma {:induction false} WithoutAbsent<T>(s: seq<T>, x: T)
    requires x !in s
    ensures Without(s, x) == s
  {
    if s != [] {
      WithoutAbsent(s[1..], x);
    }
  }

  lemma {:induction false} WithoutAppend<T>(a: seq<T>, b: seq<T>, x: T)
    ensures Without(a + b, x) == Without(a, x) + Without(b, x)
  {
    if a == [] {
      assert a + b == b;
    } else {
      assert (a + b)[1..] == a[1..] + b;
      WithoutAppend(a[1..], b, x);
    }
  }

  lemma {:induction false} WithoutDistinct<T>(s: seq<T>, x: T)
    requires Distinct(s)
    ensures Distinct(Without(s, x))
  {
    if s != [] {
      WithoutDistinct(s[1..], x);
      WithoutMembers(s[1..], x);
      DistinctHead(s);
      if s[0] != x {
        DistinctCons(s[0], Without(s[1..], x));
      }
    }
  }

  lemma DistinctHead<T>(s: seq<T>)
    requires Distinct(s) && s != []
    ensures s[0] !in s[1..] && Distinct(s[1..])
  {
  }

  lemma DistinctCons<T>(x: T, s: seq<T>)
    requires Distinct(s) && x !in s
    ensures Distinct([x] + s)
  {
  }

  /** All buckets from `i` on, one after another. */
  function Chained<T>(buckets: seq<seq<T>>, i: nat): seq<T>
    requires i <= |buckets|
    decreases |buckets| - i
  {
    if i == |buckets| then [] else buckets[i] + Chained(buckets, i + 1)
  }

  lemma {:induction false} ChainedUpdate<T>(buckets: seq<seq<T>>, i: nat, j: nat, b: seq<T>)
    requires i <= |buckets| && j < |buckets|
    ensures j < i ==> Chained(buckets[j := b], i) == Chained(buckets, i)
    decreases |buckets| - i
  {
    if i < |buckets| {
      ChainedUpdate(buckets, i + 1, j, b);
    }
  }

  /** Removing from one bucket, if the link is in no other, removes it from the whole. */
  lemma {:induction false} ChainedWithout<T>(buckets: seq<seq<T>>, i: nat, j: nat, x: T)
    requires i <= |buckets| && j < |buckets| && forall k :: 0 <= k < |buckets| && k != j ==> x !in buckets[k]
    ensures Chained(buckets[j := Without(buckets[j], x)], i) == Without(Chained(buckets, i), x)
    decreases |buckets| - i
  {
    if i < |buckets| {
      ChainedWithout(buckets, i + 1, j, x);
      WithoutAppend(buckets[i], Chained(buckets, i + 1), x);
      if i != j {
        WithoutAbsent(buckets[i], x);
      }
    }
  }

  /** The chain from `x` on. */
  function From<T(==)>(s: seq<T>, x: T): (r: seq<T>)
    requires x in s
    ensures r != [] && r[0] == x && |r| <= |s|
  {
    if s[0] == x then s else From(s[1..], x)
  }

  /** What follows `x`. */
  function After<T(==)>(s: seq<T>, x: T): Option<T>
    requires x in s
  {
    if |From(s, x)| > 1 then Some(From(s, x)[1]) else None
  }

  lemma {:induction false} AfterFrom<T>(s: seq<T>, x: T)
    requires Distinct(s) && x in s
    ensures After(s, x).Some? ==> After(s, x).value in s && After(s, x).value != x && From(s, After(s, x).value) == From(s, x)[1..]
    ensures After(s, x).None? ==> From(s, x) == [x]
  {
    if s[0] == x {
      if |s| > 1 {
        assert s[1] in s;
        assert From(s, s[1]) == From(s[1..], s[1]);
      }
    } else {
      DistinctHead(s);
      AfterFrom(s[1..], x);
    }
  }

  lemma {:induction false} FromWithout<T>(s: seq<T>, x: T, y: T)
    requires Distinct(s) && x in s && y in s && x != y
    ensures x in Without(s, y) && From(Without(s, y), x) == Without(From(s, x), y)
  {
    WithoutMembers(s, y);
    DistinctHead(s);
    if s[0] != x {
      if s[0] == y {
        WithoutAbsent(s[1..], y);
        assert Without(s, y) == s[1..];
        FromAbsent(s[1..], x, y);
      } else {
        FromWithout(s[1..], x, y);
        assert Without(s, y) == [s[0]] + Without(s[1..], y);
        assert Without(s, y)[1..] == Without(s[1..], y);
      }
    } else {
      assert Without(s, y) == [s[0]] + Without(s[1..], y);
    }
  }

  lemma {:induction false} FromAbsent<T>(s: seq<T>, x: T, y: T)
    requires x in s && y !in s
    ensures Without(From(s, x), y) == From(s, x)
  {
    if s[0] == x {
      WithoutAbsent(s, y);
    } else {
      FromAbsent(s[1..], x, y);
    }
  }

  /** Where `x` itself goes, the chain goes on at what followed it. */
  lemma {:induction false} FromSkip<T>(s: seq<T>, x: T)
    requires Distinct(s) && x in s
    ensures Without(From(s, x), x) == From(s, x)[1..]
    ensures After(s, x).Some? ==> After(s, x).value in Without(s, x) && From(Without(s, x), After(s, x).value) == From(s, x)[1..]
  {
    DistinctHead(s);
    if s[0] == x {
      WithoutAbsent(s[1..], x);
      if |s| > 1 {
        assert s[1] in s[1..] && From(s[1..], s[1]) == s[1..];
      }
    } else {
      FromSkip(s[1..], x);
      assert Without(s, x) == [s[0]] + Without(s[1..], x);
      assert Without(s, x)[1..] == Without(s[1..], x);
      AfterFrom(s[1..], x);
    }
  }

  // ----- Joins, newest first -----

  function InSlot<K>(joined: seq<Link<K>>, slotOf: Option<K> -> nat, i: nat): seq<Link<K>> {
    if joined == [] then [] else (if slotOf(joined[0].key) == i then [joined[0]] else []) + InSlot(joined[1..], slotOf, i)
  }

  lemma {:induction false} InSlotMembers<K>(joined: seq<Link<K>>, slotOf: Option<K> -> nat, i: nat)
    ensures forall l :: l in InSlot(joined, slotOf, i) <==> l in joined && slotOf(l.key) == i
  {
    if joined != [] {
      InSlotMembers(joined[1..], slotOf, i);
      assert joined == [joined[0]] + joined[1..];
    }
  }

  lemma {:induction false} InSlotDistinct<K>(joined: seq<Link<K>>, slotOf: Option<K> -> nat, i: nat)
    requires Distinct(joined)
    ensures Distinct(InSlot(joined, slotOf, i))
  {
    if joined != [] {
      DistinctHead(joined);
      InSlotDistinct(joined[1..], slotOf, i);
      InSlotMembers(joined[1..], slotOf, i);
      if slotOf(joined[0].key) == i {
        DistinctCons(joined[0], InSlot(joined[1..], slotOf, i));
      }
    }
  }

  lemma {:induction false} InSlotWithout<K>(joined: seq<Link<K>>, slotOf: Option<K> -> nat, i: nat, l: Link<K>)
    ensures InSlot(Without(joined, l), slotOf, i) == Without(InSlot(joined, slotOf, i), l)
  {
    if joined != [] {
      InSlotWithout(joined[1..], slotOf, i, l);
      var rest := Without(joined[1..], l);
      var head := if slotOf(joined[0].key) == i then [joined[0]] else [];
      WithoutAppend(head, InSlot(joined[1..], slotOf, i), l);
      assert [joined[0]][1..] == [];
      if joined[0] != l {
        assert ([joined[0]] + rest)[1..] == rest;
        assert Without(head, l) == head;
      } else {
        assert Without(head, l) == [];
        assert Without(joined, l) == rest;
      }
    }
  }

  lemma {:induction false} WithoutSize<T>(s: seq<T>, x: T)
    requires Distinct(s) && x in s
    ensures |Without(s, x)| == |s| - 1
  {
    DistinctHead(s);
    if s[0] == x {
      WithoutAbsent(s[1..], x);
    } else {
      WithoutSize(s[1..], x);
    }
  }

  /** A search along links stops at place `n`: no key before it compares equal, and there is the
      link found, a link without a key, or the end. */
  ghost predicate StopsAt<K>(links: seq<Link<K>>, cmp: (K, K) -> int, k: K, n: int, r: Option<Link<K>>) {
    && 0 <= n <= |links|
    && (forall j :: 0 <= j < n ==> links[j].key.Some? && cmp(k, links[j].key.value) != 0)
    && if r.Some? then n < |links| && links[n] == r.value && r.value.key.Some? && cmp(k, r.value.key.value) == 0
       else n == |links| || links[n].key.None?
  }

  /** What a search along links finds: the first one whose key compares equal.  A link without a
      key ends the search. */
  ghost predicate Finds<K>(links: seq<Link<K>>, cmp: (K, K) -> int, k: K, r: Option<Link<K>>) {
    exists n :: StopsAt(links, cmp, k, n, r)
  }

  ghost predicate AllKeyed<K>(links: seq<Link<K>>) {
    forall j :: 0 <= j < |links| ==> links[j].key.Some?
  }

  ghost predicate KeysHashAlike<K(!new)>(cmp: (K, K) -> int, slotOf: Option<K> -> nat) {
    forall a, b :: cmp(a, b) == 0 ==> slotOf(Some(a)) == slotOf(Some(b))
  }

  /** Looking in one bucket finds what looking through all links would: the most recent join
      of an equal key. */
  lemma {:induction false} FindLatest<K(!new)>(joined: seq<Link<K>>, cmp: (K, K) -> int, slotOf: Option<K> -> nat, k: K, r: Option<Link<K>>)
    requires KeysHashAlike(cmp, slotOf) && AllKeyed(joined)
    requires Finds(InSlot(joined, slotOf, slotOf(Some(k))), cmp, k, r)
    ensures Finds(joined, cmp, k, r)
    decreases |joined|
  {
    if joined != [] {
      var i := slotOf(Some(k));
      var l, rest := joined[0], joined[1..];
      assert l in joined;
      if slotOf(l.key) == i {
        assert InSlot(joined, slotOf, i) == [l] + InSlot(rest, slotOf, i);
        if cmp(k, l.key.value) == 0 {
          FoundHere(l, InSlot(rest, slotOf, i), rest, cmp, k, r);
          assert [l] + rest == joined;
          return;
        }
        FoundLater(l, InSlot(rest, slotOf, i), cmp, k, r);
      } else {
        assert InSlot(joined, slotOf, i) == InSlot(rest, slotOf, i);
      }
      FindLatest(rest, cmp, slotOf, k, r);
      FoundBehind(l, rest, cmp, k, r);
      assert [l] + rest == joined;
    }
  }

  lemma FoundHere<K>(l: Link<K>, rest: seq<Link<K>>, rest': seq<Link<K>>, cmp: (K, K) -> int, k: K, r: Option<Link<K>>)
    requires l.key.Some? && cmp(k, l.key.value) == 0 && Finds([l] + rest, cmp, k, r)
    ensures Finds([l] + rest', cmp, k, r)
  {
    var n :| StopsAt([l] + rest, cmp, k, n, r);
    assert ([l] + rest)[0] == l;
    assert StopsAt([l] + rest', cmp, k, 0, r);
  }

  lemma FoundLater<K>(l: Link<K>, rest: seq<Link<K>>, cmp: (K, K) -> int, k: K, r: Option<Link<K>>)
    requires l.key.Some? && cmp(k, l.key.value) != 0 && Finds([l] + rest, cmp, k, r)
    ensures Finds(rest, cmp, k, r)
  {
    var links := [l] + rest;
    var n :| StopsAt(links, cmp, k, n, r);
    assert links[0] == l;
    forall j | 0 <= j < n - 1 ensures rest[j].key.Some? && cmp(k, rest[j].key.value) != 0 {
      assert rest[j] == links[j + 1];
    }
    assert StopsAt(rest, cmp, k, n - 1, r);
  }

  lemma FoundBehind<K>(l: Link<K>, rest: seq<Link<K>>, cmp: (K, K) -> int, k: K, r: Option<Link<K>>)
    requires l.key.Some? && cmp(k, l.key.value) != 0 && Finds(rest, cmp, k, r)
    ensures Finds([l] + rest, cmp, k, r)
  {
    var links := [l] + rest;
    var n :| StopsAt(rest, cmp, k, n, r);
    forall j | 0 <= j < n + 1 ensures links[j].key.Some? && cmp(k, links[j].key.value) != 0 {
      assert j > 0 ==> links[j] == rest[j - 1];
    }
    assert n < |rest| ==> links[n + 1] == rest[n];
    assert StopsAt(links, cmp, k, n + 1, r);
  }

  /** With a key on every link, what is found is the most recent link with an equal key, and
      nothing is found only if there is none. */
  lemma FoundAmongAll<K>(joined: seq<Link<K>>, cmp: (K, K) -> int, k: K, r: Option<Link<K>>)
    requires Finds(joined, cmp, k, r) && AllKeyed(joined)
    ensures r.Some? ==> r.value.key.Some? && cmp(k, r.value.key.value) == 0
    ensures r.Some? ==>
      exists i :: 0 <= i < |joined| && joined[i] == r.value && (forall j :: 0 <= j < i ==> cmp(k, joined[j].key.value) != 0)
    ensures r.None? ==> forall j :: 0 <= j < |joined| ==> cmp(k, joined[j].key.value) != 0
  {
  }

  ghost function RemainingAt<T>(buckets: seq<seq<T>>, slot: nat, l: T): seq<T>
    requires slot < |buckets| && l in buckets[slot]
  {
    From(buckets[slot], l) + Chained(buckets, slot + 1)
  }

  ghost predicate OnlyIn<T>(buckets: seq<seq<T>>, i: nat, x: T) {
    i < |buckets| && x in buckets[i] && Distinct(buckets[i]) && forall k :: 0 <= k < |buckets| && k != i ==> x !in buckets[k]
  }

  /** The iterator at another link while `hl` goes. */
  lemma RemoveOther<T>(buckets: seq<seq<T>>, slot: nat, l: T, i: nat, hl: T)
    requires OnlyIn(buckets, i, hl) && slot < |buckets| && l in buckets[slot] && l != hl
    ensures var buckets' := buckets[i := Without(buckets[i], hl)];
      l in buckets'[slot] && RemainingAt(buckets', slot, l) == Without(RemainingAt(buckets, slot, l), hl)
  {
    hide Without, From, Chained, Distinct;
    var buckets' := buckets[i := Without(buckets[i], hl)];
    ChainedWithout(buckets, slot + 1, i, hl);
    WithoutAppend(From(buckets[slot], l), Chained(buckets, slot + 1), hl);
    if slot == i {
      FromWithout(buckets[i], l, hl);
    } else {
      FromAbsent(buckets[slot], l, hl);
    }
  }

  /** The iterator at the link that goes. */
  lemma RemoveSelf<T>(buckets: seq<seq<T>>, slot: nat, hl: T)
    requires OnlyIn(buckets, slot, hl)
    ensures var chain := buckets[slot]; var buckets' := buckets[slot := Without(chain, hl)];
      && (After(chain, hl).Some? ==>
            After(chain, hl).value in buckets'[slot] && RemainingAt(buckets', slot, After(chain, hl).value) == Without(RemainingAt(buckets, slot, hl), hl))
      && (After(chain, hl).None? ==> Chained(buckets', slot + 1) == Without(RemainingAt(buckets, slot, hl), hl))
  {
    var chain := buckets[slot];
    ChainedWithout(buckets, slot + 1, slot, hl);
    ChainedUpdate(buckets, slot + 1, slot, Without(chain, hl));
    WithoutAppend(From(chain, hl), Chained(buckets, slot + 1), hl);
    FromSkip(chain, hl);
    AfterFrom(chain, hl);
  }

  /** The buckets after a removal are those of the links that are left. */
  lemma RemoveChains<K>(buckets: seq<seq<Link<K>>>, joined: seq<Link<K>>, slotOf: Option<K> -> nat, hl: Link<K>)
    requires Distinct(joined) && hl in joined && slotOf(hl.key) < |buckets|
    requires forall i :: 0 <= i < |buckets| ==> buckets[i] == InSlot(joined, slotOf, i)
    ensures OnlyIn(buckets, slotOf(hl.key), hl)
    ensures var i := slotOf(hl.key); var buckets' := buckets[i := Without(buckets[i], hl)]; var joined' := Without(joined, hl);
      && Distinct(joined') && |joined'| == |joined| - 1
      && forall k :: 0 <= k < |buckets| ==> buckets'[k] == InSlot(joined', slotOf, k)
  {
    var i := slotOf(hl.key);
    WithoutDistinct(joined, hl);
    WithoutSize(joined, hl);
    InSlotDistinct(joined, slotOf, i);
    forall k | 0 <= k < |buckets|
      ensures buckets[i := Without(buckets[i], hl)][k] == InSlot(Without(joined, hl), slotOf, k)
      ensures hl in buckets[k] <==> k == i
    {
      InSlotMembers(joined, slotOf, k);
      InSlotWithout(joined, slotOf, k, hl);
      if k != i {
        WithoutAbsent(buckets[k], hl);
      }
    }
  }

  class Table<K(!new)> {
    var buckets: seq<seq<Link<K>>>
    var count: int
    var next: Option<Link<K>>
    var currentSlot: nat
    const slotOf: Option<K> -> nat
    const cmp: (K, K) -> int
    ghost var joined: seq<Link<K>>

    ghost predicate Chains()
      reads `buckets, `count, `joined
    {
      && |buckets| > 0 && (forall k :: slotOf(k) < |buckets|) && Distinct(joined) && count == |joined|
      && forall i :: 0 <= i < |buckets| ==> buckets[i] == InSlot(joined, slotOf, i)
    }

    ghost predicate Valid()
      reads this
    {
      Chains() && (next.Some? ==> currentSlot < |buckets| && next.value in buckets[currentSlot])
    }

    /** What hash_next has still to return, in order. */
    ghost function Remaining(): seq<Link<K>>
      requires Valid()
      reads this
    {
      if next.None? then [] else RemainingAt(buckets, currentSlot, next.value)
    }

    /** hash_create. */
    constructor (compare: (K, K) -> int, hashSize: nat, hash: Option<K> -> nat)
      requires forall k :: hash(k) < if hashSize == 0 then DEFAULT_HASH_SIZE else hashSize
      ensures Valid() && joined == [] && next == None && cmp == compare && slotOf == hash
    {
      var n := if hashSize == 0 then DEFAULT_HASH_SIZE else hashSize;
      buckets := seq(n, _ => []);
      count, next, currentSlot, slotOf, cmp, joined := 0, None, 0, hash, compare, [];
    }

    /** hash_join. */
    method Join(lnk: Link<K>)
      requires Valid() && lnk !in joined
      modifies this`buckets, this`count, this`joined
      ensures Valid() && joined == [lnk] + old(joined)
    {
      var i := slotOf(lnk.key);
      buckets := buckets[i := [lnk] + buckets[i]];
      count := count + 1;
      joined := [lnk] + joined;
      DistinctCons(lnk, old(joined));
      assert joined[1..] == old(joined);
    }

    /** hash_lookup: the most recent join of an equal key, if all links have keys; with links
        that have none, the first equal key in the bucket before such a link. */
    method Lookup(k: K) returns (r: Option<Link<K>>)
      requires Valid() && KeysHashAlike(cmp, slotOf)
      ensures Finds(InSlot(joined, slotOf, slotOf(Some(k))), cmp, k, r)
      ensures r.Some? ==> r.value.key.Some? && cmp(k, r.value.key.value) == 0
      ensures AllKeyed(joined) && r.Some? ==>
        exists i :: 0 <= i < |joined| && joined[i] == r.value && (forall j :: 0 <= j < i ==> cmp(k, joined[j].key.value) != 0)
      ensures AllKeyed(joined) && r.None? ==> forall j :: 0 <= j < |joined| ==> cmp(k, joined[j].key.value) != 0
    {
      var chain := buckets[slotOf(Some(k))];
      assert chain == InSlot(joined, slotOf, slotOf(Some(k)));
      r := SearchChain(chain, cmp, k);
      hide InSlot, Chains, KeysHashAlike, Finds;
      if AllKeyed(joined) {
        FindLatest(joined, cmp, slotOf, k, r);
        FoundAmongAll(joined, cmp, k, r);
      }
    }

    /** hash_next_bucket: on to the head of the next bucket that has one. */
    method NextBucket()
      requires Chains() && currentSlot < |buckets|
      requires next.Some? ==> next.value in buckets[currentSlot]
      modifies this`next, this`currentSlot
      ensures Valid()
      ensures old(next).Some? ==> next == old(next) && currentSlot == old(currentSlot)
      ensures old(next).None? ==> Remaining() == Chained(buckets, old(currentSlot) + 1)
    {
      if next.None? {
        hide Chains, Chained, RemainingAt;
        next, currentSlot := NextHead(buckets, currentSlot);
      }
    }

    /** hash_first. */
    method First()
      requires Valid() && next.None?
      modifies this`next, this`currentSlot
      ensures Valid() && Remaining() == Chained(buckets, 0)
    {
      currentSlot := 0;
      next := if buckets[0] == [] then None else Some(buckets[0][0]);
      if next.None? {
        NextBucket();
      }
    }

    /** hash_next. */
    method Next() returns (r: Option<Link<K>>)
      requires Valid()
      modifies this`next, this`currentSlot
      ensures Valid()
      ensures r == if old(Remaining()) == [] then None else Some(old(Remaining())[0])
      ensures Remaining() == if old(Remaining()) == [] then [] else old(Remaining())[1..]
    {
      r := next;
      if next.None? {
        return;
      }
      ghost var chain := buckets[currentSlot];
      InSlotDistinct(joined, slotOf, currentSlot);
      AfterFrom(chain, next.value);
      next := After(buckets[currentSlot], next.value);
      if next.None? {
        NextBucket();
      }
    }

    /** hash_remove_link, at any time: what the iterator has still to return only loses the
        link. */
    method Remove(hl: Link<K>)
      requires Valid() && hl in joined
      modifies this
      ensures Valid() && joined == Without(old(joined), hl) && Remaining() == Without(old(Remaining()), hl)
    {
      hide Without, InSlot, Chained, From, Distinct, OnlyIn, RemainingAt, After;
      var i := slotOf(hl.key);
      var chain := buckets[i];
      InSlotMembers(joined, slotOf, i);
      var at := FindLink(chain, hl);
      InSlotDistinct(joined, slotOf, i);
      CutOut(chain, at);
      RemoveChains(buckets, joined, slotOf, hl);
      if next.Some? {
        InSlotMembers(joined, slotOf, currentSlot);
        if next.value == hl {
          RemoveSelf(buckets, i, hl);
        } else {
          RemoveOther(buckets, currentSlot, next.value, i, hl);
        }
      }
      WithoutNone(hl);
      count := count - 1;
      buckets := buckets[i := chain[..at] + chain[at + 1..]];
      joined := Without(joined, hl);
      if next == Some(hl) {
        next := After(chain, hl);
        if next.None? {
          NextBucket();
        }
      }
    }

    /** A caller's traversal: hash_first, then any interleaving of hash_next and
        hash_remove_link. */
    method Traverse(ops: seq<Op<Link<K>>>) returns (out: seq<Link<K>>)
      requires Valid() && next.None? && Runnable(joined, ops)
      modifies this
      ensures Valid() && joined == Rest(old(joined), ops)
      ensures out == Returned(old(Chained(buckets, 0)), ops) && Remaining() == Left(old(Chained(buckets, 0)), ops)
      ensures Distinct(out) && forall l :: l in out ==> l in old(joined) && l !in Remaining()
      ensures forall l :: l in old(joined) && RemoveLink(l) !in ops ==> l in out || l in Remaining()
    {
      hide InSlot, Chained, RemainingAt, Returned, Left, Rest, Runnable, Distinct;
      ghost var links := Chained(buckets, 0);
      EveryLink(buckets, joined, slotOf, 0);
      forall l | l in joined ensures l in links {
        assert slotOf(l.key) < |buckets|;
      }
      EachOnce(links, ops);
      ghost var ret, left := Returned(links, ops), Left(links, ops);
      forall i | 0 <= i < |ret| ensures ret[i] in joined && ret[i] !in left {
        assert ret[i] in ret && ret[i] in links;
      }
      First();
      out := RunCalls(ops);
    }

    /** Any interleaving of hash_next and hash_remove_link. */
    method RunCalls(ops: seq<Op<Link<K>>>) returns (out: seq<Link<K>>)
      requires Valid() && Runnable(joined, ops)
      modifies this
      ensures Valid() && joined == Rest(old(joined), ops)
      ensures out == Returned(old(Remaining()), ops) && Remaining() == Left(old(Remaining()), ops)
    {
      hide Chains, RemainingAt, Returned, Left, Rest, Runnable;
      out := [];
      ghost var rem := Remaining();
      var i := 0;
      assert ops[0..] == ops;
      while i < |ops|
        invariant 0 <= i <= |ops| && Valid() && Runnable(joined, ops[i..]) && Rest(joined, ops[i..]) == Rest(old(joined), ops)
        invariant out + Returned(Remaining(), ops[i..]) == Returned(rem, ops)
        invariant Left(Remaining(), ops[i..]) == Left(rem, ops)
      {
        assert ops[i..][1..] == ops[i + 1..] && ops[i..][0] == ops[i];
        CallStep(joined, Remaining(), ops[i..]);
        match ops[i] {
          case NextLink =>
            ghost var rest := Returned(if Remaining() == [] then [] else Remaining()[1..], ops[i + 1..]);
            var r := Next();
            if r.Some? {
              assert (out + [r.value]) + rest == out + ([r.value] + rest);
              out := out + [r.value];
            } else {
              assert [] + rest == rest;
            }
          case RemoveLink(l) =>
            Remove(l);
        }
        i := i + 1;
      }
      assert ops[i..] == [];
      NoCalls(joined, Remaining());
      assert out + [] == out;
    }
  }

  lemma WithoutNone<T>(x: T)
    ensures Without([], x) == []
  {
  }

  /** Chains one bucket at a time, and a chain from its head. */
  lemma ChainedAt<T>(buckets: seq<seq<T>>, i: nat)
    requires i <= |buckets|
    ensures i == |buckets| ==> Chained(buckets, i) == []
    ensures i < |buckets| && buckets[i] == [] ==> Chained(buckets, i) == Chained(buckets, i + 1)
    ensures i < |buckets| && buckets[i] != [] ==> RemainingAt(buckets, i, buckets[i][0]) == Chained(buckets, i)
  {
  }

  /** The loop of hash_lookup. */
  method SearchChain<K>(chain: seq<Link<K>>, cmp: (K, K) -> int, k: K) returns (r: Option<Link<K>>)
    ensures Finds(chain, cmp, k, r)
  {
    var i := 0;
    while i < |chain|
      invariant 0 <= i <= |chain| && forall j :: 0 <= j < i ==> chain[j].key.Some? && cmp(k, chain[j].key.value) != 0
    {
      if chain[i].key.None? {
        assert StopsAt(chain, cmp, k, i, None);
        return None;
      }
      if cmp(k, chain[i].key.value) == 0 {
        assert StopsAt(chain, cmp, k, i, Some(chain[i]));
        return Some(chain[i]);
      }
      i := i + 1;
    }
    assert StopsAt(chain, cmp, k, i, None);
    r := None;
  }

  /** The loop of hash_next_bucket. */
  method NextHead<T>(buckets: seq<seq<T>>, slot: nat) returns (next: Option<T>, at: nat)
    requires slot < |buckets|
    ensures next.Some? ==> at < |buckets| && next.value in buckets[at] && RemainingAt(buckets, at, next.value) == Chained(buckets, slot + 1)
    ensures next.None? ==> at == |buckets| && Chained(buckets, slot + 1) == []
  {
    hide Chained, RemainingAt;
    next, at := None, slot + 1;
    while at < |buckets|
      invariant at <= |buckets| && Chained(buckets, at) == Chained(buckets, slot + 1)
    {
      ChainedAt(buckets, at);
      if |buckets[at]| > 0 {
        next := Some(buckets[at][0]);
        return;
      }
      at := at + 1;
    }
    ChainedAt(buckets, at);
  }

  /** The walk along the chain; the link is in it. */
  method FindLink<T(==)>(chain: seq<T>, hl: T) returns (at: nat)
    requires hl in chain
    ensures at < |chain| && chain[at] == hl
  {
    at := 0;
    while chain[at] != hl
      invariant 0 <= at < |chain| && hl in chain[at..]
      decreases |chain| - at
    {
      at := at + 1;
    }
  }

  lemma {:induction false} CutOut<T>(s: seq<T>, at: nat)
    requires at < |s| && Distinct(s)
    ensures s[..at] + s[at + 1..] == Without(s, s[at])
  {
    DistinctHead(s);
    if at == 0 {
      WithoutAbsent(s[1..], s[0]);
    } else {
      CutOut(s[1..], at - 1);
      assert s[..at] == [s[0]] + s[1..][..at - 1] && s[1..][at..] == s[at + 1..];
    }
  }

  // ----- Iterating while links are removed -----

  datatype Op<T> = NextLink | RemoveLink(link: T)

  /** What is left to return after some calls, by the contracts of Next and Remove. */
  function Left<T(==)>(rem: seq<T>, ops: seq<Op<T>>): seq<T>
    decreases |ops|
  {
    if ops == [] then rem
    else match ops[0]
      case NextLink => Left(if rem == [] then [] else rem[1..], ops[1..])
      case RemoveLink(l) => Left(Without(rem, l), ops[1..])
  }

  /** What the calls to Next have returned. */
  function Returned<T(==)>(rem: seq<T>, ops: seq<Op<T>>): seq<T>
    decreases |ops|
  {
    if ops == [] then []
    else match ops[0]
      case NextLink => (if rem == [] then [] else [rem[0]]) + Returned(if rem == [] then [] else rem[1..], ops[1..])
      case RemoveLink(l) => Returned(Without(rem, l), ops[1..])
  }

  /** The links removed are in the table when they are. */
  ghost predicate Runnable<T>(joined: seq<T>, ops: seq<Op<T>>)
    decreases |ops|
  {
    ops == [] ||
    match ops[0]
    case NextLink => Runnable(joined, ops[1..])
    case RemoveLink(l) => l in joined && Runnable(Without(joined, l), ops[1..])
  }

  /** The table after some calls. */
  function Rest<T(==)>(joined: seq<T>, ops: seq<Op<T>>): seq<T>
    decreases |ops|
  {
    if ops == [] then joined
    else match ops[0]
      case NextLink => Rest(joined, ops[1..])
      case RemoveLink(l) => Rest(Without(joined, l), ops[1..])
  }

  lemma CallStep<T>(joined: seq<T>, rem: seq<T>, ops: seq<Op<T>>)
    requires ops != []
    ensures ops[0].NextLink? ==>
      var rem' := if rem == [] then [] else rem[1..];
      && Returned(rem, ops) == (if rem == [] then [] else [rem[0]]) + Returned(rem', ops[1..]) && Left(rem, ops) == Left(rem', ops[1..])
      && Rest(joined, ops) == Rest(joined, ops[1..]) && Runnable(joined, ops) == Runnable(joined, ops[1..])
    ensures ops[0].RemoveLink? ==>
      var l := ops[0].link;
      && Returned(rem, ops) == Returned(Without(rem, l), ops[1..]) && Left(rem, ops) == Left(Without(rem, l), ops[1..])
      && Rest(joined, ops) == Rest(Without(joined, l), ops[1..])
      && (Runnable(joined, ops) <==> l in joined && Runnable(Without(joined, l), ops[1..]))
  {
  }

  lemma NoCalls<T>(joined: seq<T>, rem: seq<T>)
    ensures Returned(rem, []) == [] && Left(rem, []) == rem && Rest(joined, []) == joined
  {
  }

  /** Whatever the interleaving: nothing is returned twice, and every link is returned, still
      to come, or was removed, and only one of the first two. */
  lemma {:induction false} EachOnce<T>(rem: seq<T>, ops: seq<Op<T>>)
    requires Distinct(rem)
    ensures Distinct(Returned(rem, ops)) && Distinct(Left(rem, ops))
    ensures forall l :: l in Returned(rem, ops) ==> l in rem && l !in Left(rem, ops)
    ensures forall l :: l in Left(rem, ops) ==> l in rem
    ensures forall l :: l in rem && RemoveLink(l) !in ops ==> l in Returned(rem, ops) || l in Left(rem, ops)
    decreases |ops|
  {
    if ops != [] {
      var rest := ops[1..];
      assert ops == [ops[0]] + rest;
      match ops[0]
      case NextLink =>
        if rem != [] {
          DistinctHead(rem);
          EachOnce(rem[1..], rest);
          assert rem == [rem[0]] + rem[1..];
          DistinctCons(rem[0], Returned(rem[1..], rest));
          assert Left(rem, ops) == Left(rem[1..], rest);
          assert Returned(rem, ops) == [rem[0]] + Returned(rem[1..], rest);
        } else {
          EachOnce(rem, rest);
        }
      case RemoveLink(l) =>
        WithoutDistinct(rem, l);
        WithoutMembers(rem, l);
        EachOnce(Without(rem, l), rest);
        assert Left(rem, ops) == Left(Without(rem, l), rest) && Returned(rem, ops) == Returned(Without(rem, l), rest);
        forall x | x in Returned(rem, ops) ensures x in rem {
          assert x in Without(rem, l);
        }
        forall x | x in Left(rem, ops) ensures x in rem {
          assert x in Without(rem, l);
        }
    }
  }

  /** A removed link is not returned afterwards. */
  lemma NotReturned<T>(rem: seq<T>, l: T, ops: seq<Op<T>>)
    requires Distinct(rem)
    ensures l !in Returned(Without(rem, l), ops) && l !in Left(Without(rem, l), ops)
  {
    WithoutDistinct(rem, l);
    WithoutMembers(rem, l);
    EachOnce(Without(rem, l), ops);
  }

  /** Hence a traversal that has ended returned every link that was not removed. */
  lemma AllReturned<T>(rem: seq<T>, ops: seq<Op<T>>, l: T)
    requires Distinct(rem) && Left(rem, ops) == [] && l in rem && RemoveLink(l) !in ops
    ensures l in Returned(rem, ops)
  {
    EachOnce(rem, ops);
  }

  /** hash_first starts with every link of the table, each once. */
  lemma {:induction false} EveryLink<K>(buckets: seq<seq<Link<K>>>, joined: seq<Link<K>>, slotOf: Option<K> -> nat, i: nat)
    requires Distinct(joined) && i <= |buckets|
    requires forall k :: 0 <= k < |buckets| ==> buckets[k] == InSlot(joined, slotOf, k)
    ensures forall l :: l in Chained(buckets, i) <==> l in joined && i <= slotOf(l.key) < |buckets|
    ensures Distinct(Chained(buckets, i))
    decreases |buckets| - i
  {
    if i < |buckets| {
      EveryLink(buckets, joined, slotOf, i + 1);
      InSlotMembers(joined, slotOf, i);
      InSlotDistinct(joined, slotOf, i);
      DistinctAppend(buckets[i], Chained(buckets, i + 1));
    }
  }

  lemma DistinctAppend<T>(a: seq<T>, b: seq<T>)
    requires Distinct(a) && Distinct(b) && forall x :: x in a ==> x !in b
    ensures Distinct(a + b)
  {
    var s := a + b;
    forall i, j | 0 <= i < j < |s| ensures s[i] != s[j] {
      if i < |a| <= j {
        assert s[i] in a && s[j] in b;
      }
    }
  }
}
