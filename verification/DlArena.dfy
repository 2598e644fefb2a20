/**
 The invariant of the allocator's arena (lib/dlmalloc.c) and how re-dividing a run of
 chunks, with the tag words rewritten to match, keeps it.
 */
module DlArena {
  import opened DlLayout
  import opened DlBins

  /** Addresses and sizes stay below the range of a signed 32-bit long. */
  const LIMIT := 0x8000_0000

  /** All of the allocator's state but for the free chunks `loose` that an operation has
      taken off their lists. */
  ghost predicate Ok(mem: Memory, lay: Layout, bins: seq<Bin>, lr: Bin, blocks: seq<bool>,
                     base: int, top: int, end: int, loose: set<int>) {
    && Tiling(lay, base, top, end) && Consolidated(lay, top) && Tags(mem, lay, base, top)
    && BinsOk(lay, top, bins, lr, loose) && BlocksOk(bins, blocks)
    && 0 <= base && end <= LIMIT
  }

  /** Live chunks other than `except` keep address, size and data. */
  ghost predicate KeepsLive(mem: Memory, lay: Layout, mem': Memory, lay': Layout, except: set<int>) {
    forall p {:trigger Live(lay, p)} :: Live(lay, p) && p !in except ==>
      && Live(lay', p) && lay'[p].size == lay[p].size
      && forall a :: a in mem && Payload(lay, p, a) ==> a in mem' && mem'[a] == mem[a]
  }

  lemma KeepsLiveTrans(mem: Memory, lay: Layout, mem': Memory, lay': Layout, mem'': Memory, lay'': Layout,
                       except: set<int>, except': set<int>)
    requires KeepsLive(mem, lay, mem', lay', except) && KeepsLive(mem', lay', mem'', lay'', except')
    requires forall p :: p in except' ==> p in except || !Live(lay, p)
    ensures KeepsLive(mem, lay, mem'', lay'', except)
  {
    forall p | Live(lay, p) && p !in except
      ensures Live(lay'', p) && lay''[p].size == lay[p].size
      ensures forall a :: a in mem && Payload(lay, p, a) ==> a in mem'' && mem''[a] == mem[a]
    {
      assert Live(lay', p);
      forall a | a in mem && Payload(lay, p, a) ensures a in mem'' && mem''[a] == mem[a] {
        assert Payload(lay', p, a);
      }
    }
  }

  /** The general step: region [lo, hi) is re-divided into chunks `cs`. */
  lemma Redivide(mem: Memory, mem': Memory, lay: Layout, bins: seq<Bin>, lr: Bin, blocks: seq<bool>,
                 base: int, top: int, end: int, loose: set<int>,
                 lo: int, hi: int, cs: Layout, top': int, loose': set<int>)
    requires Ok(mem, lay, bins, lr, blocks, base, top, end, loose)
    requires Region(lay, lo, hi, end) && NewTiles(cs, lo, hi, top')
    requires if hi in lay then top' == top && top' !in cs else top' in cs
    requires Within(mem, mem', lo, hi) && NewTags(mem, mem', lay, lo, hi, cs, top')
    requires forall p {:trigger Free(lay, top, p)} :: Free(lay, top, p) && lo <= p < hi ==> p in loose
    requires cs[lo].used || mem[lo + 4].pinuse
    requires forall p {:trigger Free(cs, top', p)} :: Free(cs, top', p) ==>
               if Next(cs, p) == hi then hi in lay && lay[hi].used else Next(cs, p) in cs && cs[Next(cs, p)].used
    requires loose' == (set p | p in loose && !(lo <= p < hi)) + (set p | p in cs && Free(cs, top', p))
    ensures Ok(mem', Replace(lay, lo, hi, cs), bins, lr, blocks, base, top', end, loose')
    ensures KeepsLive(mem, lay, mem', Replace(lay, lo, hi, cs), set p | p in lay && lo <= p < hi)
  {
    ReplaceTiling(lay, base, top, end, lo, hi, cs, top');
    ReplaceTags(mem, mem', lay, base, top, end, lo, hi, cs, top');
    ReplaceBins(lay, base, top, end, bins, lr, loose, lo, hi, cs, top', loose');
    RedivideConsolidated(mem, lay, base, top, end, lo, hi, cs, top');
    RedivideKeeps(mem, mem', lay, base, top, end, lo, hi, cs);
  }

  lemma RedivideConsolidated(mem: Memory, lay: Layout, base: int, top: int, end: int, lo: int, hi: int, cs: Layout, top': int)
    requires Tiling(lay, base, top, end) && Consolidated(lay, top) && Tags(mem, lay, base, top)
    requires Region(lay, lo, hi, end) && NewTiles(cs, lo, hi, top')
    requires if hi in lay then top' == top && top' !in cs else top' in cs
    requires cs[lo].used || mem[lo + 4].pinuse
    requires forall p {:trigger Free(cs, top', p)} :: Free(cs, top', p) ==>
               if Next(cs, p) == hi then hi in lay && lay[hi].used else Next(cs, p) in cs && cs[Next(cs, p)].used
    ensures Consolidated(Replace(lay, lo, hi, cs), top')
  {
    if !cs[lo].used {
      forall p | Free(lay, top, p) ensures Next(lay, p) != lo {
        assert TagAfter(mem, lay, p);
      }
    }
    ReplaceConsolidated(lay, base, top, end, lo, hi, cs, top');
  }

  lemma RedivideKeeps(mem: Memory, mem': Memory, lay: Layout, base: int, top: int, end: int, lo: int, hi: int, cs: Layout)
    requires Tiling(lay, base, top, end) && Region(lay, lo, hi, end) && Within(mem, mem', lo, hi)
    requires forall p :: p in cs ==> lo <= p < hi
    ensures KeepsLive(mem, lay, mem', Replace(lay, lo, hi, cs), set p | p in lay && lo <= p < hi)
  {
    var lay' := Replace(lay, lo, hi, cs);
    forall p | Live(lay, p) && !(lo <= p < hi)
      ensures Live(lay', p) && lay'[p].size == lay[p].size
      ensures forall a :: a in mem && Payload(lay, p, a) ==> a in mem' && mem'[a] == mem[a]
    {
      InReplace(lay, lo, hi, cs, p);
      WithinSpares(mem, mem', lay, base, top, end, lo, hi, p);
    }
  }

  // ----- The shapes that occur -----

  function One(lo: int, hi: int, used: bool): Layout {
    map[lo := Chunk(hi - lo, used)]
  }

  function Two(lo: int, mid: int, hi: int, used: bool): Layout {
    map[lo := Chunk(mid - lo, true), mid := Chunk(hi - mid, used)]
  }

  lemma OneAligned(lay: Layout, lo: int, hi: int, used: bool)
    requires Aligned(lay) && lo in lay && (hi - lo) % 8 == 0
    ensures Aligned(Replace(lay, lo, hi, One(lo, hi, used)))
  {
    ReplaceAligned(lay, lo, hi, One(lo, hi, used));
  }

  lemma TwoAligned(lay: Layout, lo: int, mid: int, hi: int, used: bool)
    requires Aligned(lay) && lo in lay && (mid - lo) % 8 == 0 && (hi - mid) % 8 == 0
    ensures Aligned(Replace(lay, lo, hi, Two(lo, mid, hi, used)))
  {
    ReplaceAligned(lay, lo, hi, Two(lo, mid, hi, used));
  }

  /** The region becomes one chunk, in use or free. */
  lemma RedivideOne(mem: Memory, mem': Memory, lay: Layout, bins: seq<Bin>, lr: Bin, blocks: seq<bool>,
                    base: int, top: int, end: int, loose: set<int>, lo: int, hi: int, used: bool, loose': set<int>)
    requires Ok(mem, lay, bins, lr, blocks, base, top, end, loose)
    requires lo in lay && hi in lay && hi - lo >= MINSIZE
    requires Within(mem, mem', lo, hi)
    requires lo + 4 in mem' && mem'[lo + 4] == Head(hi - lo, mem[lo + 4].pinuse)
    requires hi + 4 in mem' && mem'[hi + 4] == Head(mem[hi + 4].size, used)
    requires !used ==> hi in mem' && mem'[hi] == Foot(hi - lo) && mem[lo + 4].pinuse && lay[hi].used
    requires forall p {:trigger Free(lay, top, p)} :: Free(lay, top, p) && lo <= p < hi ==> p in loose
    requires loose' == (set p | p in loose && !(lo <= p < hi)) + (if used then {} else {lo})
    ensures Ok(mem', Replace(lay, lo, hi, One(lo, hi, used)), bins, lr, blocks, base, top, end, loose')
    ensures KeepsLive(mem, lay, mem', Replace(lay, lo, hi, One(lo, hi, used)), set p | p in lay && lo <= p < hi)
  {
    var cs := One(lo, hi, used);
    assert Next(cs, lo) == hi && hi <= top;
    assert TagAfter(mem', cs, lo);
    assert NewTags(mem, mem', lay, lo, hi, cs, top);
    assert (set p | p in cs && Free(cs, top, p)) == if used then {} else {lo};
    Redivide(mem, mem', lay, bins, lr, blocks, base, top, end, loose, lo, hi, cs, top, loose');
  }

  /** The region becomes a chunk in use followed by another one, in use or free. */
  lemma RedivideTwo(mem: Memory, mem': Memory, lay: Layout, bins: seq<Bin>, lr: Bin, blocks: seq<bool>,
                    base: int, top: int, end: int, loose: set<int>, lo: int, mid: int, hi: int, used: bool, loose': set<int>)
    requires Ok(mem, lay, bins, lr, blocks, base, top, end, loose)
    requires lo in lay && hi in lay && mid - lo >= MINSIZE && hi - mid >= MINSIZE
    requires Within(mem, mem', lo, hi)
    requires lo + 4 in mem' && mem'[lo + 4] == Head(mid - lo, mem[lo + 4].pinuse)
    requires mid + 4 in mem' && mem'[mid + 4] == Head(hi - mid, true)
    requires hi + 4 in mem' && mem'[hi + 4] == Head(mem[hi + 4].size, used)
    requires !used ==> hi in mem' && mem'[hi] == Foot(hi - mid) && lay[hi].used
    requires forall p {:trigger Free(lay, top, p)} :: Free(lay, top, p) && lo <= p < hi ==> p in loose
    requires loose' == (set p | p in loose && !(lo <= p < hi)) + (if used then {} else {mid})
    ensures Ok(mem', Replace(lay, lo, hi, Two(lo, mid, hi, used)), bins, lr, blocks, base, top, end, loose')
    ensures KeepsLive(mem, lay, mem', Replace(lay, lo, hi, Two(lo, mid, hi, used)), set p | p in lay && lo <= p < hi)
  {
    var cs := Two(lo, mid, hi, used);
    assert Next(cs, lo) == mid && Next(cs, mid) == hi && hi <= top;
    assert TagAfter(mem', cs, lo) && TagAfter(mem', cs, mid);
    assert NewTags(mem, mem', lay, lo, hi, cs, top);
    assert (set p | p in cs && Free(cs, top, p)) == if used then {} else {mid};
    Redivide(mem, mem', lay, bins, lr, blocks, base, top, end, loose, lo, hi, cs, top, loose');
  }

  /** The end of the arena, from `lo` on, becomes the top chunk. */
  lemma RedivideTop(mem: Memory, mem': Memory, lay: Layout, bins: seq<Bin>, lr: Bin, blocks: seq<bool>,
                    base: int, top: int, end: int, loose: set<int>, lo: int, loose': set<int>)
    requires Ok(mem, lay, bins, lr, blocks, base, top, end, loose)
    requires lo in lay && end - lo >= MINSIZE
    requires Within(mem, mem', lo, end)
    requires lo + 4 in mem' && mem'[lo + 4] == Head(end - lo, true) && mem[lo + 4].pinuse
    requires forall p {:trigger Free(lay, top, p)} :: Free(lay, top, p) && lo <= p ==> p in loose
    requires loose' == set p | p in loose && p < lo
    ensures Ok(mem', Replace(lay, lo, end, One(lo, end, false)), bins, lr, blocks, base, lo, end, loose')
    ensures KeepsLive(mem, lay, mem', Replace(lay, lo, end, One(lo, end, false)), set p | p in lay && lo <= p < end)
  {
    var cs := One(lo, end, false);
    assert Next(cs, lo) == end && Next(lay, top) == end;
    assert end !in lay;
    assert NewTags(mem, mem', lay, lo, end, cs, lo);
    assert loose' == (set p | p in loose && !(lo <= p < end)) + (set p | p in cs && Free(cs, lo, p));
    Redivide(mem, mem', lay, bins, lr, blocks, base, top, end, loose, lo, end, cs, lo, loose');
  }

  /** The end of the arena becomes a chunk in use followed by the top chunk. */
  lemma RedivideTwoTop(mem: Memory, mem': Memory, lay: Layout, bins: seq<Bin>, lr: Bin, blocks: seq<bool>,
                       base: int, top: int, end: int, loose: set<int>, lo: int, mid: int, loose': set<int>)
    requires Ok(mem, lay, bins, lr, blocks, base, top, end, loose)
    requires lo in lay && mid - lo >= MINSIZE && end - mid >= MINSIZE
    requires Within(mem, mem', lo, end)
    requires lo + 4 in mem' && mem'[lo + 4] == Head(mid - lo, mem[lo + 4].pinuse)
    requires mid + 4 in mem' && mem'[mid + 4] == Head(end - mid, true)
    requires forall p {:trigger Free(lay, top, p)} :: Free(lay, top, p) && lo <= p ==> p in loose
    requires loose' == set p | p in loose && p < lo
    ensures Ok(mem', Replace(lay, lo, end, Two(lo, mid, end, false)), bins, lr, blocks, base, mid, end, loose')
    ensures KeepsLive(mem, lay, mem', Replace(lay, lo, end, Two(lo, mid, end, false)), set p | p in lay && lo <= p < end)
  {
    var cs := Two(lo, mid, end, false);
    assert Next(cs, lo) == mid && Next(cs, mid) == end && Next(lay, top) == end;
    assert end !in lay;
    assert TagAfter(mem', cs, lo);
    assert NewTags(mem, mem', lay, lo, end, cs, mid);
    assert loose' == (set p | p in loose && !(lo <= p < end)) + (set p | p in cs && Free(cs, mid, p));
    Redivide(mem, mem', lay, bins, lr, blocks, base, top, end, loose, lo, end, cs, mid, loose');
  }
}
