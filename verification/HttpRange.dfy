/**
 Byte ranges of src/HttpHdrRange.c.  Merging of neighbours is compiled in or not, so it is a
 parameter here.
 */
module HttpRange {
  const UNKNOWN := -1

  datatype Spec = Spec(offset: int, length: int)

  /** What the parser lets through: a suffix, a trailer, or a range that is not empty. */
  predicate Parsed(s: Spec) {
    if s.offset == UNKNOWN then s.length > 0 else s.offset >= 0 && (s.length == UNKNOWN || s.length > 0)
  }

  /** Byte `x` of a body of `clen` bytes is asked for; see section 14.35.1 of RFC 2616. */
  predicate Asked(s: Spec, clen: int, x: int) {
    && 0 <= x < clen
    && if s.offset == UNKNOWN then clen - s.length <= x
       else s.offset <= x && (s.length == UNKNOWN || x < s.offset + s.length)
  }

  predicate Has(s: Spec, x: int) {
    s.offset <= x < s.offset + s.length
  }

  /** A range inside the body that is not empty. */
  predicate Good(s: Spec, clen: int) {
    0 <= s.offset && 0 < s.length && s.offset + s.length <= clen
  }

  function SizeDiff(a: int, b: int): int {
    if a >= b then a - b else 0
  }

  function SizeMin(a: int, b: int): int {
    if a <= b then a else b
  }

  /** httpHdrRangeSpecCanonize: still a range if and only if it meets the body, and then the
      same bytes of it. */
  method SpecCanonize(s: Spec, clen: int) returns (ok: bool, r: Spec)
    requires Parsed(s) && clen >= 0
    ensures r == Canonized(s, clen) && ok == (r.length > 0)
    ensures ok ==> Good(r, clen)
    ensures forall x :: ok && Has(r, x) <==> Asked(s, clen, x)
  {
    r := s;
    if r.offset == UNKNOWN {
      r := r.(offset := SizeDiff(clen, r.length));
    } else if r.length == UNKNOWN {
      r := r.(length := SizeDiff(clen, r.offset));
    }
    r := r.(length := SizeMin(SizeDiff(clen, r.offset), r.length));
    ok := r.length > 0;
  }

  function Canonized(s: Spec, clen: int): Spec {
    var off := if s.offset == UNKNOWN then SizeDiff(clen, s.length) else s.offset;
    var len := if s.offset != UNKNOWN && s.length == UNKNOWN then SizeDiff(clen, s.offset) else s.length;
    Spec(off, SizeMin(SizeDiff(clen, off), len))
  }

  lemma CanonizedBytes(s: Spec, clen: int)
    requires Parsed(s) && clen >= 0
    ensures Canonized(s, clen).length > 0 ==> Good(Canonized(s, clen), clen)
    ensures forall x :: Canonized(s, clen).length > 0 && Has(Canonized(s, clen), x) <==> Asked(s, clen, x)
  {
  }

  /** httpHdrRangeSpecMergeWith: the union of the two, or no change. */
  method MergeWith(recep: Spec, donor: Spec, merging: bool) returns (merged: bool, r: Spec)
    requires recep.length > 0 && donor.length > 0
    ensures merged ==> merging && r.length > 0 && forall x :: Has(r, x) <==> Has(recep, x) || Has(donor, x)
    ensures !merged ==> r == recep
    ensures merging && !merged ==> recep.offset + recep.length < donor.offset || donor.offset + donor.length < recep.offset
  {
    merged, r := false, recep;
    if merging {
      var rhs, donorRhs := recep.offset + recep.length, donor.offset + donor.length;
      if donor.offset < recep.offset <= donorRhs {
        r := r.(offset := donor.offset);
        merged := true;
      }
      if donor.offset <= rhs < donorRhs {
        rhs := donorRhs;
        merged := true;
      }
      if merged {
        r := r.(length := rhs - r.offset);
      } else {
        merged := r.offset <= donor.offset < rhs;
      }
    }
  }

  predicate InAny(specs: seq<Spec>, x: int) {
    exists i :: 0 <= i < |specs| && Has(specs[i], x)
  }

  predicate AskedAny(specs: seq<Spec>, clen: int, x: int) {
    exists i :: 0 <= i < |specs| && Asked(specs[i], clen, x)
  }

  predicate AllGood(specs: seq<Spec>, clen: int) {
    forall i :: 0 <= i < |specs| ==> Good(specs[i], clen)
  }

  /** The specs that still are ranges, in order. */
  function Goods(specs: seq<Spec>, clen: int): seq<Spec> {
    if specs == [] then []
    else Goods(specs[..|specs| - 1], clen) +
         (var c := Canonized(specs[|specs| - 1], clen); if c.length > 0 then [c] else [])
  }

  lemma {:induction false} GoodsBytes(specs: seq<Spec>, clen: int)
    requires clen >= 0 && forall s :: s in specs ==> Parsed(s)
    ensures AllGood(Goods(specs, clen), clen)
    ensures forall x :: InAny(Goods(specs, clen), x) <==> AskedAny(specs, clen, x)
    decreases |specs|
  {
    if specs != [] {
      var front, last := specs[..|specs| - 1], specs[|specs| - 1];
      var c := Canonized(last, clen);
      var tail := if c.length > 0 then [c] else [];
      assert last in specs && specs == front + [last];
      GoodsBytes(front, clen);
      CanonizedBytes(last, clen);
      hide Canonized, Parsed;
      forall x ensures InAny(Goods(specs, clen), x) <==> AskedAny(specs, clen, x) {
        InAnyAppend(Goods(front, clen), tail, x);
        AskedSnoc(front, last, clen, x);
        InAnyOne(c, x);
      }
    }
  }

  lemma InAnyAppend(a: seq<Spec>, b: seq<Spec>, x: int)
    ensures InAny(a + b, x) <==> InAny(a, x) || InAny(b, x)
  {
    var s := a + b;
    if InAny(a, x) {
      var i :| 0 <= i < |a| && Has(a[i], x);
      assert s[i] == a[i];
    }
    if InAny(b, x) {
      var i :| 0 <= i < |b| && Has(b[i], x);
      assert s[|a| + i] == b[i];
    }
    if InAny(s, x) {
      var i :| 0 <= i < |s| && Has(s[i], x);
      assert s[i] == if i < |a| then a[i] else b[i - |a|];
    }
  }

  lemma InAnyOne(c: Spec, x: int)
    ensures InAny([c], x) <==> Has(c, x)
  {
    if Has(c, x) {
      assert Has([c][0], x);
    }
  }

  lemma AskedSnoc(front: seq<Spec>, last: Spec, clen: int, x: int)
    ensures AskedAny(front + [last], clen, x) <==> AskedAny(front, clen, x) || Asked(last, clen, x)
  {
    var s := front + [last];
    if AskedAny(front, clen, x) {
      var i :| 0 <= i < |front| && Asked(front[i], clen, x);
      assert s[i] == front[i];
    }
    if Asked(last, clen, x) {
      assert s[|front|] == last;
    }
  }

  class HdrRange {
    var specs: seq<Spec>

    constructor (parsed: seq<Spec>)
      ensures specs == parsed
    {
      specs := parsed;
    }

    /**
     httpHdrRangeCanonize: ranges inside the body that ask for exactly the same bytes of it,
     merged where they touch if merging is on and otherwise in the same order.
     */
    method Canonize(clen: int, merging: bool) returns (ok: bool)
      requires clen >= 0 && forall s :: s in specs ==> Parsed(s)
      modifies this
      ensures AllGood(specs, clen) && ok == (specs != [])
      ensures forall x :: InAny(specs, x) <==> AskedAny(old(specs), clen, x)
      ensures !merging ==> specs == Goods(old(specs), clen)
      ensures merging ==> forall i :: 0 < i < |specs| ==> Apart(specs[i - 1], specs[i])
    {
      var goods: seq<Spec> := [];
      var pos := 0;
      assert specs[..0] == [];
      while pos < |specs|
        invariant 0 <= pos <= |specs| && specs == old(specs) && goods == Goods(specs[..pos], clen)
      {
        assert specs[pos] in specs;
        assert specs[..pos + 1][..pos] == specs[..pos];
        var good, spec := SpecCanonize(specs[pos], clen);
        if good {
          goods := goods + [spec];
        }
        pos := pos + 1;
      }
      assert specs[..pos] == specs;
      GoodsBytes(specs, clen);
      hide Goods, Canonized, Parsed;
      specs := MergeAll(goods, clen, merging);
      ok := specs != [];
    }
  }

  /** Neither overlapping nor touching. */
  predicate Apart(a: Spec, b: Spec) {
    b.offset + b.length < a.offset || a.offset + a.length < b.offset
  }

  /** The merge loop: each spec takes in the ones before it for as long as they touch. */
  method MergeAll(all: seq<Spec>, clen: int, merging: bool) returns (specs: seq<Spec>)
    requires AllGood(all, clen)
    ensures AllGood(specs, clen) && forall x :: InAny(specs, x) <==> InAny(all, x)
    ensures !merging ==> specs == all
    ensures merging ==> forall i :: 0 < i < |specs| ==> Apart(specs[i - 1], specs[i])
  {
    hide InAny, Has;
    var goods := all;
    specs := [];
    var i := 0;
    assert goods[0..] == goods && [] + goods == goods;
    while i < |goods|
      invariant 0 <= i <= |goods| && |goods| == |all| && AllGood(specs, clen) && AllGood(goods, clen)
      invariant forall x :: InAny(specs + goods[i..], x) <==> InAny(all, x)
      invariant !merging ==> goods == all && specs == all[..i]
      invariant merging ==> forall j :: 0 < j < |specs| ==> Apart(specs[j - 1], specs[j])
      decreases |goods| - i, |specs|
    {
      var spec := goods[i];
      if specs != [] {
        var prev := specs[|specs| - 1];
        var merged, s := MergeWith(spec, prev, merging);
        if merged {
          MergedGood(spec, prev, s, clen);
          MergeStep(specs, goods, i, s);
          specs := specs[..|specs| - 1];
          goods := goods[i := s];
          continue;
        }
      }
      assert specs + [spec] + goods[i + 1..] == specs + goods[i..];
      specs := specs + [spec];
      i := i + 1;
    }
    assert goods[i..] == [] && specs + [] == specs;
  }

  lemma MergedGood(a: Spec, b: Spec, s: Spec, clen: int)
    requires Good(a, clen) && Good(b, clen) && s.length > 0 && forall x :: Has(s, x) <==> Has(a, x) || Has(b, x)
    ensures Good(s, clen)
  {
    assert Has(s, s.offset) && Has(s, s.offset + s.length - 1);
  }

  lemma MergeStep(specs: seq<Spec>, goods: seq<Spec>, i: nat, s: Spec)
    requires specs != [] && i < |goods| && forall x :: Has(s, x) <==> Has(goods[i], x) || Has(specs[|specs| - 1], x)
    ensures forall x :: InAny(specs[..|specs| - 1] + goods[i := s][i..], x) <==> InAny(specs + goods[i..], x)
  {
    var front, prev, rest := specs[..|specs| - 1], specs[|specs| - 1], goods[i + 1..];
    assert specs == front + [prev] && goods[i..] == [goods[i]] + rest && goods[i := s][i..] == [s] + rest;
    forall x ensures InAny(front + ([s] + rest), x) <==> InAny(specs + ([goods[i]] + rest), x) {
      InAnyAppend(front, [s] + rest, x);
      InAnyAppend([s], rest, x);
      InAnyAppend(specs, [goods[i]] + rest, x);
      InAnyAppend([goods[i]], rest, x);
      InAnyAppend(front, [prev], x);
      InAnyOne(s, x);
      InAnyOne(goods[i], x);
      InAnyOne(prev, x);
    }
  }

  // ----- Complex ranges -----

  /** In "strong" order: each starts at or after the end of the one before. */
  predicate Strong(specs: seq<Spec>) {
    (forall i :: 0 <= i < |specs| ==> specs[i].offset >= 0) &&
    forall i :: 0 < i < |specs| ==> specs[i - 1].offset + specs[i - 1].length <= specs[i].offset
  }

  /** httpHdrRangeIsComplex. */
  method IsComplex(specs: seq<Spec>) returns (r: bool)
    requires forall s :: s in specs ==> s.length > 0
    ensures r <==> !Strong(specs)
  {
    var offset, i := 0, 0;
    while i < |specs|
      invariant 0 <= i <= |specs| && Strong(specs[..i]) && offset >= 0
      invariant offset == if i == 0 then 0 else specs[i - 1].offset + specs[i - 1].length
    {
      assert specs[i] in specs;
      if specs[i].offset < offset {
        return true;
      }
      offset := specs[i].offset + specs[i].length;
      i := i + 1;
    }
    assert specs[..i] == specs;
    r := false;
  }

  /** What is not complex is ascending and disjoint. */
  lemma {:induction false} StrongDisjoint(specs: seq<Spec>, i: nat, j: nat)
    requires Strong(specs) && (forall s :: s in specs ==> s.length > 0) && i < j < |specs|
    ensures specs[i].offset + specs[i].length <= specs[j].offset
    ensures forall x :: !(Has(specs[i], x) && Has(specs[j], x))
    decreases j - i
  {
    if i + 1 < j {
      StrongDisjoint(specs, i, j - 1);
      assert specs[j - 1] in specs;
    }
  }

  predicate Known(s: Spec) {
    s.offset != UNKNOWN
  }

  /** Two specs with known offsets and none between them. */
  predicate Neighbours(specs: seq<Spec>, i: int, j: int) {
    0 <= i < j < |specs| && Known(specs[i]) && Known(specs[j]) && forall k :: i < k < j ==> !Known(specs[k])
  }

  predicate FirstKnown(specs: seq<Spec>, j: int) {
    0 <= j < |specs| && Known(specs[j]) && forall k :: 0 <= k < j ==> !Known(specs[k])
  }

  /** What is sure to belong to a range before the length of the body is known. */
  function SureEnd(s: Spec): int {
    s.offset + if s.length == UNKNOWN then 0 else s.length
  }

  /** Suffixes left out, some spec starts before what is sure of the one before it, or the first
      one starts before the body. */
  ghost predicate OutOfOrder(specs: seq<Spec>) {
    || (exists i, j :: Neighbours(specs, i, j) && specs[j].offset < SureEnd(specs[i]))
    || (exists j :: FirstKnown(specs, j) && specs[j].offset < 0)
  }

  /** No such thing before place `n`. */
  ghost predicate InOrderTo(specs: seq<Spec>, n: int) {
    && (forall i, j :: Neighbours(specs, i, j) && j < n ==> specs[j].offset >= SureEnd(specs[i]))
    && (forall j :: FirstKnown(specs, j) && j < n ==> specs[j].offset >= 0)
  }

  /** The last known spec before place `n`, if any. */
  ghost predicate LastBefore(specs: seq<Spec>, n: int, last: int) {
    -1 <= last < n <= |specs| && (last >= 0 ==> Known(specs[last])) && forall k :: last < k < n ==> !Known(specs[k])
  }

  lemma OneMoreSpec(specs: seq<Spec>, n: int, last: int)
    requires LastBefore(specs, n, last) && InOrderTo(specs, n) && n < |specs|
    ensures !Known(specs[n]) ==> LastBefore(specs, n + 1, last) && InOrderTo(specs, n + 1)
    ensures Known(specs[n]) ==> LastBefore(specs, n + 1, n)
    ensures Known(specs[n]) ==> var sure := if last < 0 then 0 else SureEnd(specs[last]);
      if specs[n].offset < sure then OutOfOrder(specs) else InOrderTo(specs, n + 1)
  {
    forall i, j | Neighbours(specs, i, j) ensures j == n ==> Known(specs[n]) && last >= 0 && i == last {
      OnlyNeighbour(specs, n, last, i, j);
    }
    forall j | FirstKnown(specs, j) ensures j == n ==> Known(specs[n]) && last < 0 {
      OnlyFirst(specs, n, last, j);
    }
    if Known(specs[n]) {
      LastNeighbour(specs, n, last);
    }
    hide Neighbours, FirstKnown;
  }

  lemma LastNeighbour(specs: seq<Spec>, n: int, last: int)
    requires LastBefore(specs, n, last) && n < |specs| && Known(specs[n])
    ensures if last < 0 then FirstKnown(specs, n) else Neighbours(specs, last, n)
  {
  }

  lemma OnlyNeighbour(specs: seq<Spec>, n: int, last: int, i: int, j: int)
    requires LastBefore(specs, n, last) && n < |specs| && Neighbours(specs, i, j)
    ensures j == n ==> Known(specs[n]) && last >= 0 && i == last
  {
    if j == n {
      assert i <= last by { assert Known(specs[i]); }
    }
  }

  lemma OnlyFirst(specs: seq<Spec>, n: int, last: int, j: int)
    requires LastBefore(specs, n, last) && n < |specs| && FirstKnown(specs, j)
    ensures j == n ==> Known(specs[n]) && last < 0
  {
  }

  /** httpHdrRangeWillBeComplex. */
  method WillBeComplex(specs: seq<Spec>) returns (r: bool)
    ensures r <==> OutOfOrder(specs)
  {
    var offset, i := 0, 0;
    ghost var last := -1;
    assert InOrderTo(specs, 0) && LastBefore(specs, 0, -1);
    assert InOrderTo(specs, |specs|) ==> !OutOfOrder(specs);
    hide InOrderTo, OutOfOrder;
    while i < |specs|
      invariant LastBefore(specs, i, last) && InOrderTo(specs, i)
      invariant offset == if last < 0 then 0 else SureEnd(specs[last])
      decreases |specs| - i
    {
      OneMoreSpec(specs, i, last);
      if specs[i].offset != UNKNOWN {
        if specs[i].offset < offset {
          return true;
        }
        offset := specs[i].offset;
        if specs[i].length != UNKNOWN {
          offset := offset + specs[i].length;
        }
        last := i;
      }
      i := i + 1;
    }
    r := false;
  }

  predicate Explicit(s: Spec) {
    s.offset >= 0 && s.length > 0
  }

  /** All but the last spec are explicit, and that one is not a suffix. */
  predicate MostlyExplicit(specs: seq<Spec>) {
    && (forall i :: 0 <= i < |specs| ==> Parsed(specs[i]) && specs[i].offset != UNKNOWN)
    && (forall i :: 0 <= i < |specs| - 1 ==> Explicit(specs[i]))
  }

  function End(s: Spec): int {
    s.offset + s.length
  }

  /** On explicit specs this is strong order. */
  lemma InOrderStrong(specs: seq<Spec>)
    requires MostlyExplicit(specs) && !OutOfOrder(specs)
    ensures Strong(specs)
  {
    forall i | 0 < i < |specs| ensures specs[i - 1].offset + specs[i - 1].length <= specs[i].offset {
      assert Neighbours(specs, i - 1, i) && Explicit(specs[i - 1]);
    }
    forall i | 0 <= i < |specs| ensures specs[i].offset >= 0 {
      assert Parsed(specs[i]);
    }
  }

  lemma {:induction false} GoodsStrong(specs: seq<Spec>, clen: int)
    requires Strong(specs) && (forall i :: 0 <= i < |specs| ==> Explicit(specs[i])) && clen >= 0
    ensures Strong(Goods(specs, clen))
    ensures Goods(specs, clen) != [] ==> End(Goods(specs, clen)[|Goods(specs, clen)| - 1]) <= End(specs[|specs| - 1])
    decreases |specs|
  {
    if specs != [] {
      var front, last := specs[..|specs| - 1], specs[|specs| - 1];
      GoodsStrong(front, clen);
      StrongSnoc(Goods(front, clen), Canonized(last, clen));
    }
  }

  lemma StrongSnoc(s: seq<Spec>, c: Spec)
    requires Strong(s) && c.offset >= 0 && (s != [] ==> End(s[|s| - 1]) <= c.offset)
    ensures Strong(s + [c])
  {
  }

  /** A list of explicit ranges, the last one perhaps open-ended, that was not expected to be
      complex is not complex once the length is known. */
  lemma NotComplexAfterwards(specs: seq<Spec>, clen: int)
    requires MostlyExplicit(specs) && !OutOfOrder(specs) && clen >= 0
    ensures Strong(Goods(specs, clen))
  {
    if specs != [] {
      InOrderStrong(specs);
      var front, last := specs[..|specs| - 1], specs[|specs| - 1];
      GoodsStrong(front, clen);
      StrongSnoc(Goods(front, clen), Canonized(last, clen));
    }
  }

  /** An open-ended range before the last one is accepted and yet becomes complex. */
  lemma TrailerFirst()
    ensures var specs := [Spec(0, UNKNOWN), Spec(5, 1)];
      !OutOfOrder(specs) && (forall s :: s in specs ==> Parsed(s)) && !Strong(Goods(specs, 10))
  {
    var specs := [Spec(0, UNKNOWN), Spec(5, 1)];
    assert specs[1..] == [Spec(5, 1)] && specs[..1] == [Spec(0, UNKNOWN)] && specs[..1][..0] == [];
    assert forall i, j :: Neighbours(specs, i, j) ==> i == 0 && j == 1;
    assert Goods(specs[..1], 10) == [Spec(0, 10)];
    assert Goods(specs, 10) == [Spec(0, 10), Spec(5, 1)];
    var g := Goods(specs, 10);
    assert !(g[1 - 1].offset + g[1 - 1].length <= g[1].offset);
  }

  /** An open-ended range is not needed for that: a suffix after a range does it too. */
  lemma SuffixLast()
    ensures var specs := [Spec(0, 5), Spec(UNKNOWN, 5)];
      !OutOfOrder(specs) && (forall s :: s in specs ==> Parsed(s)) && !Strong(Goods(specs, 7))
  {
    var specs := [Spec(0, 5), Spec(UNKNOWN, 5)];
    assert specs[1..] == [Spec(UNKNOWN, 5)] && specs[..1] == [Spec(0, 5)] && specs[..1][..0] == [];
    assert Goods(specs[..1], 7) == [Spec(0, 5)];
    assert Goods(specs, 7) == [Spec(0, 5), Spec(2, 5)];
    var g := Goods(specs, 7);
    assert !(g[1 - 1].offset + g[1 - 1].length <= g[1].offset);
  }

  // ----- Exactly which lists never become complex -----

  /** Neighbours that overlap for some length of the body. */
  predicate Clash(a: Spec, b: Spec) {
    a.offset == UNKNOWN || b.offset == UNKNOWN || a.length == UNKNOWN || b.offset < End(a)
  }

  /** The shortest body that both neighbours meet. */
  function ShortestBody(a: Spec, b: Spec): (clen: int)
    ensures clen > a.offset && clen > b.offset && clen > 0
  {
    1 + if a.offset > b.offset && a.offset > 0 then a.offset else if b.offset > 0 then b.offset else 0
  }

  lemma ClashAtShortest(a: Spec, b: Spec)
    requires Parsed(a) && Parsed(b) && Clash(a, b)
    ensures var clen := ShortestBody(a, b); var c, d := Canonized(a, clen), Canonized(b, clen);
      c.length > 0 && d.length > 0 && d.offset < End(c)
  {
  }

  lemma {:induction false} GoodsAppend(a: seq<Spec>, b: seq<Spec>, clen: int)
    ensures Goods(a + b, clen) == Goods(a, clen) + Goods(b, clen)
    decreases |b|
  {
    if b == [] {
      assert a + b == a;
    } else {
      assert (a + b)[..|a + b| - 1] == a + b[..|b| - 1];
      GoodsAppend(a, b[..|b| - 1], clen);
    }
  }

  /** Neighbours that both survive are neighbours still. */
  lemma NeighboursStay(specs: seq<Spec>, i: nat, clen: int)
    requires i + 1 < |specs| && Canonized(specs[i], clen).length > 0 && Canonized(specs[i + 1], clen).length > 0
    requires Canonized(specs[i + 1], clen).offset < End(Canonized(specs[i], clen))
    ensures !Strong(Goods(specs, clen))
  {
    hide Canonized;
    var front, pair, back := specs[..i], [specs[i], specs[i + 1]], specs[i + 2..];
    assert specs == front + pair + back;
    GoodsAppend(front + pair, back, clen);
    GoodsAppend(front, pair, clen);
    GoodsAppend([specs[i]], [specs[i + 1]], clen);
    assert [specs[i]] + [specs[i + 1]] == pair;
    GoodsOne(specs[i], clen);
    GoodsOne(specs[i + 1], clen);
    var g, k := Goods(specs, clen), |Goods(front, clen)|;
    assert g[k] == Canonized(specs[i], clen) && g[k + 1] == Canonized(specs[i + 1], clen);
    assert !(g[k + 1 - 1].offset + g[k + 1 - 1].length <= g[k + 1].offset);
  }

  lemma GoodsOne(s: Spec, clen: int)
    requires Canonized(s, clen).length > 0
    ensures Goods([s], clen) == [Canonized(s, clen)]
  {
    assert [s][..0] == [];
  }

  /** A longer list that is not as NotComplexAfterwards asks has a clash between neighbours. */
  lemma SomeClash(specs: seq<Spec>) returns (i: nat)
    requires |specs| > 1 && (forall s :: s in specs ==> Parsed(s)) && (!MostlyExplicit(specs) || OutOfOrder(specs))
    ensures i + 1 < |specs| && Clash(specs[i], specs[i + 1])
  {
    if (forall k :: 0 <= k < |specs| - 1 ==> !Clash(specs[k], specs[k + 1])) {
      NoClash(specs);
      assert false;
    }
    i :| 0 <= i < |specs| - 1 && Clash(specs[i], specs[i + 1]);
  }

  lemma NoClash(specs: seq<Spec>)
    requires |specs| > 1 && (forall s :: s in specs ==> Parsed(s))
    requires forall k :: 0 <= k < |specs| - 1 ==> !Clash(specs[k], specs[k + 1])
    ensures MostlyExplicit(specs) && !OutOfOrder(specs)
  {
    forall j | 0 <= j < |specs|
      ensures Parsed(specs[j]) && specs[j].offset != UNKNOWN && (j < |specs| - 1 ==> Explicit(specs[j]))
    {
      assert specs[j] in specs;
      assert j + 1 < |specs| ==> !Clash(specs[j], specs[j + 1]);
      assert j > 0 ==> !Clash(specs[j - 1], specs[j - 1 + 1]);
    }
    forall i, j | Neighbours(specs, i, j) ensures specs[j].offset >= SureEnd(specs[i]) {
      assert j == i + 1 || Known(specs[i + 1]);
      assert !Clash(specs[i], specs[i + 1]);
    }
  }

  /** The lists that are not complex after canonization without merging, whatever the length
      turns out to be: single specs, and what httpHdrRangeWillBeComplex accepts of explicit
      ranges, the last one perhaps open-ended. */
  lemma NeverComplex(specs: seq<Spec>)
    requires forall s :: s in specs ==> Parsed(s)
    ensures (forall clen :: clen >= 0 ==> Strong(Goods(specs, clen))) <==>
            |specs| <= 1 || (MostlyExplicit(specs) && !OutOfOrder(specs))
  {
    if |specs| <= 1 {
      forall clen | clen >= 0 ensures Strong(Goods(specs, clen)) {
        assert specs != [] ==> specs[0] in specs && specs[..0] == [];
      }
    } else if MostlyExplicit(specs) && !OutOfOrder(specs) {
      forall clen | clen >= 0 ensures Strong(Goods(specs, clen)) {
        NotComplexAfterwards(specs, clen);
      }
    } else {
      var i := SomeClash(specs);
      assert specs[i] in specs && specs[i + 1] in specs;
      ClashAtShortest(specs[i], specs[i + 1]);
      NeighboursStay(specs, i, ShortestBody(specs[i], specs[i + 1]));
    }
  }
}
