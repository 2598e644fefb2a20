/**
 The arena of lib/dlmalloc.c: contiguous chunks with boundary tags.  A layout says which
 chunks there are; the memory words hold their size fields, PREV_INUSE bits and feet in
 among the users' data.
 */
module DlLayout {

  const MINSIZE := 16
  const SIZE_SZ := 4

  datatype Chunk = Chunk(size: int, used: bool)
  type Layout = map<int, Chunk>

  /** A memory word: a chunk's size field with its PREV_INUSE bit, a free chunk's foot
      (the `prev_size` of the chunk after it), a list link, or a user's data. */
  datatype Cell = Head(size: int, pinuse: bool) | Foot(size: int) | Link | User(value: int)
  type Memory = map<int, Cell>

  function Next(lay: Layout, p: int): int
    requires p in lay
  {
    p + lay[p].size
  }

  /** The chunks lie end to end from `base`, and the last of them is `top`. */
  ghost predicate Tiling(lay: Layout, base: int, top: int, end: int) {
    && base in lay && top in lay
    && (forall p :: p in lay ==> base <= p <= top)
    && (forall p {:trigger Next(lay, p)} :: p in lay && p != top ==> lay[p].size >= MINSIZE && Next(lay, p) in lay)
    && Next(lay, top) == end && !lay[top].used
    && (lay[top].size >= MINSIZE || (lay[top].size == 0 && top == base))
    && (forall p, q {:trigger Next(lay, p), q in lay} :: p in lay && q in lay && p < q ==> Next(lay, p) <= q)
  }

  ghost predicate Aligned(lay: Layout) {
    forall p :: p in lay ==> p % 8 == 0 && lay[p].size % 8 == 0
  }

  predicate Free(lay: Layout, top: int, p: int) {
    p in lay && p != top && !lay[p].used
  }

  predicate Live(lay: Layout, p: int) {
    p in lay && lay[p].used
  }

  /** Consolidation: a free chunk borders neither another free chunk nor `top`. */
  ghost predicate Consolidated(lay: Layout, top: int) {
    forall p {:trigger Free(lay, top, p)} :: Free(lay, top, p) ==> Next(lay, p) in lay && lay[Next(lay, p)].used
  }

  /** The boundary tags in memory say what the layout says. */
  ghost predicate Tags(mem: Memory, lay: Layout, base: int, top: int) {
    && (forall p :: p in lay ==> p + 4 in mem && mem[p + 4].Head? && mem[p + 4].size == lay[p].size)
    && (base in lay ==> mem[base + 4].pinuse)
    && (forall p {:trigger TagAfter(mem, lay, p)} :: p in lay && p != top ==> TagAfter(mem, lay, p))
  }

  /** The chunk after `p` records whether `p` is in use and, if not, where it starts. */
  ghost predicate TagAfter(mem: Memory, lay: Layout, p: int)
    requires p in lay
  {
    var n := Next(lay, p);
    && n + 4 in mem && mem[n + 4].Head? && mem[n + 4].pinuse == lay[p].used
    && (!lay[p].used ==> n in mem && mem[n] == Foot(lay[p].size))
  }

  ghost predicate Backed(mem: Memory, base: int, end: int) {
    forall a :: base <= a < end && a % 4 == 0 ==> a in mem
  }

  // ----- Tiling -----

  /** Every chunk but the first has a chunk right before it. */
  lemma Predecessor(lay: Layout, base: int, top: int, end: int, p: int) returns (q: int)
    requires Tiling(lay, base, top, end) && p in lay && p != base
    ensures q in lay && q < p && q != top && Next(lay, q) == p
  {
    q := base;
    while Next(lay, q) != p
      invariant q in lay && q < p
      decreases p - q
    {
      q := Next(lay, q);
    }
  }

  /** The chunks cover the arena and do not overlap: every address is in exactly one. */
  lemma CoveredOnce(lay: Layout, base: int, top: int, end: int, a: int) returns (p: int)
    requires Tiling(lay, base, top, end) && base <= a < end
    ensures p in lay && p <= a < Next(lay, p)
    ensures forall q :: q in lay && q <= a < Next(lay, q) ==> q == p
  {
    p := base;
    while Next(lay, p) <= a
      invariant p in lay && p <= a
      decreases end - p
    {
      p := Next(lay, p);
    }
  }

  /** The layout without the chunks that start in [lo, hi). */
  ghost function Cut(lay: Layout, lo: int, hi: int): Layout {
    map p | p in lay && !(lo <= p < hi) :: lay[p]
  }

  ghost function Replace(lay: Layout, lo: int, hi: int, cs: Layout): Layout {
    Cut(lay, lo, hi) + cs
  }

  /** Chunks `cs` tile [lo, hi), the last one being the top chunk if the region ends the arena. */
  ghost predicate NewTiles(cs: Layout, lo: int, hi: int, top: int) {
    && lo in cs
    && (forall p :: p in cs ==> lo <= p < hi)
    && (forall p {:trigger Next(cs, p)} :: p in cs && p != top ==> cs[p].size >= MINSIZE && (Next(cs, p) in cs || Next(cs, p) == hi))
    && (top in cs ==> !cs[top].used && cs[top].size >= MINSIZE && Next(cs, top) == hi && forall p :: p in cs ==> p <= top)
    && (forall p, q {:trigger Next(cs, p), q in cs} :: p in cs && q in cs && p < q ==> Next(cs, p) <= q)
  }

  /** A run of whole chunks of the layout. */
  ghost predicate Region(lay: Layout, lo: int, hi: int, end: int) {
    lo in lay && lo < hi && (hi in lay || hi == end)
  }

  lemma InReplace(lay: Layout, lo: int, hi: int, cs: Layout, p: int)
    ensures p in Replace(lay, lo, hi, cs) <==> p in cs || (p in lay && !(lo <= p < hi))
    ensures p in cs ==> Replace(lay, lo, hi, cs)[p] == cs[p]
    ensures p in lay && p !in cs && !(lo <= p < hi) ==> Replace(lay, lo, hi, cs)[p] == lay[p]
  {
  }

  /** Re-dividing a run of whole chunks keeps the tiling. */
  lemma ReplaceTiling(lay: Layout, base: int, top: int, end: int, lo: int, hi: int, cs: Layout, top': int)
    requires Tiling(lay, base, top, end) && Region(lay, lo, hi, end) && NewTiles(cs, lo, hi, top')
    requires if hi in lay then top' == top && top' !in cs else top' in cs
    ensures Tiling(Replace(lay, lo, hi, cs), base, top', end)
  {
    var lay' := Replace(lay, lo, hi, cs);
    ReplaceEnds(lay, base, top, end, lo, hi, cs, top');
    forall p | p in lay' && p != top' ensures lay'[p].size >= MINSIZE && Next(lay', p) in lay' {
      ReplaceNext(lay, base, top, end, lo, hi, cs, top', p);
    }
    forall p, q | p in lay' && q in lay' && p < q ensures Next(lay', p) <= q {
      ReplaceApart(lay, base, top, end, lo, hi, cs, top', p, q);
    }
  }

  lemma ReplaceEnds(lay: Layout, base: int, top: int, end: int, lo: int, hi: int, cs: Layout, top': int)
    requires Tiling(lay, base, top, end) && Region(lay, lo, hi, end) && NewTiles(cs, lo, hi, top')
    requires if hi in lay then top' == top && top' !in cs else top' in cs
    ensures var lay' := Replace(lay, lo, hi, cs);
      && base in lay' && top' in lay' && Next(lay', top') == end && !lay'[top'].used
      && (lay'[top'].size >= MINSIZE || (lay'[top'].size == 0 && top' == base))
      && forall p :: p in lay' ==> base <= p <= top'
  {
    var lay' := Replace(lay, lo, hi, cs);
    InReplace(lay, lo, hi, cs, top');
    InReplace(lay, lo, hi, cs, base);
    assert Next(lay, top) == end;
    if hi in lay {
      assert lay'[top'] == lay[top];
    } else {
      assert Next(cs, top') == hi && lay'[top'] == cs[top'];
    }
    forall p | p in lay' ensures base <= p <= top' {
      InReplace(lay, lo, hi, cs, p);
    }
  }

  lemma ReplaceNext(lay: Layout, base: int, top: int, end: int, lo: int, hi: int, cs: Layout, top': int, p: int)
    requires Tiling(lay, base, top, end) && Region(lay, lo, hi, end) && NewTiles(cs, lo, hi, top')
    requires if hi in lay then top' == top && top' !in cs else top' in cs
    requires p in Replace(lay, lo, hi, cs) && p != top'
    ensures var lay' := Replace(lay, lo, hi, cs); lay'[p].size >= MINSIZE && Next(lay', p) in lay'
  {
    InReplace(lay, lo, hi, cs, p);
    if p in cs {
      InReplace(lay, lo, hi, cs, Next(cs, p));
    } else {
      InReplace(lay, lo, hi, cs, Next(lay, p));
    }
  }

  lemma ReplaceApart(lay: Layout, base: int, top: int, end: int, lo: int, hi: int, cs: Layout, top': int, p: int, q: int)
    requires Tiling(lay, base, top, end) && Region(lay, lo, hi, end) && NewTiles(cs, lo, hi, top')
    requires p in Replace(lay, lo, hi, cs) && q in Replace(lay, lo, hi, cs) && p < q
    ensures Next(Replace(lay, lo, hi, cs), p) <= q
  {
    InReplace(lay, lo, hi, cs, p);
    InReplace(lay, lo, hi, cs, q);
    if p in cs {
      assert Next(cs, p) <= hi;
    } else {
      assert Next(lay, p) <= lo || Next(lay, p) > hi;
    }
  }

  /** What the words of the region must say for the new chunks. */
  ghost predicate NewTags(mem: Memory, mem': Memory, lay: Layout, lo: int, hi: int, cs: Layout, top': int) {
    && (forall p :: p in cs ==> p + 4 in mem' && mem'[p + 4].Head? && mem'[p + 4].size == cs[p].size)
    && lo in cs && lo + 4 in mem && mem[lo + 4].Head? && mem'[lo + 4].pinuse == mem[lo + 4].pinuse
    && (hi in lay ==> hi + 4 in mem && mem[hi + 4].Head? &&
                      hi + 4 in mem' && mem'[hi + 4].Head? && mem'[hi + 4].size == mem[hi + 4].size)
    && (forall p {:trigger TagAfter(mem', cs, p)} :: p in cs && p != top' ==> TagAfter(mem', cs, p))
  }

  /** The tags stay right when only the region's own words change and they fit the new chunks. */
  lemma ReplaceTags(mem: Memory, mem': Memory, lay: Layout, base: int, top: int, end: int,
                    lo: int, hi: int, cs: Layout, top': int)
    requires Tiling(lay, base, top, end) && Region(lay, lo, hi, end) && NewTiles(cs, lo, hi, top')
    requires if hi in lay then top' == top && top' !in cs else top' in cs
    requires Tags(mem, lay, base, top) && Within(mem, mem', lo, hi) && NewTags(mem, mem', lay, lo, hi, cs, top')
    ensures Tags(mem', Replace(lay, lo, hi, cs), base, top')
  {
    var lay' := Replace(lay, lo, hi, cs);
    forall p | p in lay' ensures p + 4 in mem' && mem'[p + 4].Head? && mem'[p + 4].size == lay'[p].size {
      InReplace(lay, lo, hi, cs, p);
    }
    assert base == lo || base + 4 < lo + 4;
    forall p | p in lay' && p != top' ensures TagAfter(mem', lay', p) {
      ReplaceTagAfter(mem, mem', lay, base, top, end, lo, hi, cs, top', p);
    }
  }

  lemma ReplaceTagAfter(mem: Memory, mem': Memory, lay: Layout, base: int, top: int, end: int,
                        lo: int, hi: int, cs: Layout, top': int, p: int)
    requires Tiling(lay, base, top, end) && Region(lay, lo, hi, end) && NewTiles(cs, lo, hi, top')
    requires if hi in lay then top' == top && top' !in cs else top' in cs
    requires Tags(mem, lay, base, top) && Within(mem, mem', lo, hi) && NewTags(mem, mem', lay, lo, hi, cs, top')
    requires p in Replace(lay, lo, hi, cs) && p != top'
    ensures TagAfter(mem', Replace(lay, lo, hi, cs), p)
  {
    InReplace(lay, lo, hi, cs, p);
    if p in cs {
      assert TagAfter(mem', cs, p);
    } else if p < lo {
      assert TagAfter(mem, lay, p) && Next(lay, p) <= lo;
    } else {
      assert Next(lay, top) == end;
      assert TagAfter(mem, lay, p) && Next(lay, p) >= hi + MINSIZE;
    }
  }

  /** Only words that belong to the chunks of [lo, hi), and the size field after them, differ. */
  ghost predicate Within(mem: Memory, mem': Memory, lo: int, hi: int) {
    forall a :: a in mem && !(lo + 4 <= a <= hi) && a != hi + 4 ==> a in mem' && mem'[a] == mem[a]
  }

  /** The user's words of a chunk: everything past its size field up to the next one's. */
  predicate Payload(lay: Layout, p: int, a: int)
    requires p in lay
  {
    p + 8 <= a <= Next(lay, p)
  }

  /** A live chunk outside the region keeps its data. */
  lemma WithinSpares(mem: Memory, mem': Memory, lay: Layout, base: int, top: int, end: int, lo: int, hi: int, p: int)
    requires Tiling(lay, base, top, end) && Region(lay, lo, hi, end) && Within(mem, mem', lo, hi)
    requires Live(lay, p) && !(lo <= p < hi)
    ensures forall a :: a in mem && Payload(lay, p, a) ==> a in mem' && mem'[a] == mem[a]
  {
  }

  /** Re-division keeps consolidation if each new free chunk has used neighbours. */
  lemma ReplaceConsolidated(lay: Layout, base: int, top: int, end: int, lo: int, hi: int, cs: Layout, top': int)
    requires Tiling(lay, base, top, end) && Region(lay, lo, hi, end) && NewTiles(cs, lo, hi, top')
    requires if hi in lay then top' == top && top' !in cs else top' in cs
    requires forall p {:trigger Free(lay, top, p)} :: Free(lay, top, p) && !(lo <= p < hi) ==>
               Next(lay, p) in lay && lay[Next(lay, p)].used
    requires cs[lo].used || forall p {:trigger Free(lay, top, p)} :: Free(lay, top, p) ==> Next(lay, p) != lo
    requires forall p {:trigger Free(cs, top', p)} :: Free(cs, top', p) ==>
               if Next(cs, p) == hi then hi in lay && lay[hi].used else Next(cs, p) in cs && cs[Next(cs, p)].used
    ensures Consolidated(Replace(lay, lo, hi, cs), top')
  {
    var lay' := Replace(lay, lo, hi, cs);
    forall p | Free(lay', top', p) ensures Next(lay', p) in lay' && lay'[Next(lay', p)].used {
      InReplace(lay, lo, hi, cs, p);
      if p in cs {
        assert Free(cs, top', p);
        InReplace(lay, lo, hi, cs, Next(cs, p));
      } else {
        assert Next(lay, top) == end;
        assert Free(lay, top, p);
        InReplace(lay, lo, hi, cs, Next(lay, p));
      }
    }
  }

  lemma ReplaceAligned(lay: Layout, lo: int, hi: int, cs: Layout)
    requires Aligned(lay) && Aligned(cs)
    ensures Aligned(Replace(lay, lo, hi, cs))
  {
    forall p | p in Replace(lay, lo, hi, cs)
      ensures p % 8 == 0 && Replace(lay, lo, hi, cs)[p].size % 8 == 0
    {
      InReplace(lay, lo, hi, cs, p);
    }
  }
}
