/**
 What single steps of malloc, free and realloc in lib/dlmalloc.c do to the arena.
 */
module DlSteps {
  import opened Basics
  import opened DlLayout
  import opened DlBins
  import opened DlScan
  import opened DlArena

  /** request2size, with the unsigned sum and its signed comparison at 32 bits. */
  function Request2Size(req: nat): (nb: nat)
    requires req < 0x1_0000_0000
    ensures nb % 8 == 0 && MINSIZE <= nb < LIMIT
  {
    var padded := (req + 11) % 0x1_0000_0000;
    if padded >= 0x8000_0000 || padded < 23 then MINSIZE else padded - padded % 8
  }

  /** The padded size has room for the request exactly while the padded sum stays positive
      as a signed long; beyond that the request is treated as minimal. */
  lemma RequestHasRoom(req: nat)
    requires req < 0x1_0000_0000
    ensures Request2Size(req) - SIZE_SZ >= req <==> req + 11 < 0x8000_0000
    ensures req + 11 < 0x8000_0000 ==> Request2Size(req) < req + SIZE_SZ + 8 || Request2Size(req) == MINSIZE
    ensures req + 11 >= 0x8000_0000 ==> Request2Size(req) == MINSIZE
  {
  }

  /** The chunks in use. */
  ghost function LiveSet(lay: Layout): set<int> {
    set p | p in lay && lay[p].used
  }

  /** No free chunk is large enough. */
  ghost predicate NoneFits(lay: Layout, top: int, nb: int) {
    forall p {:trigger Free(lay, top, p)} :: Free(lay, top, p) ==> lay[p].size < nb
  }

  /** Words strictly inside a chunk, past its size field, are not tags. */
  lemma InsideWrite(mem: Memory, mem': Memory, lay: Layout, bins: seq<Bin>, lr: Bin, blocks: seq<bool>,
                    base: int, top: int, end: int, loose: set<int>, p: int)
    requires Ok(mem, lay, bins, lr, blocks, base, top, end, loose) && p in lay && p != top
    requires Inside(mem, mem', lay, p)
    ensures Ok(mem', lay, bins, lr, blocks, base, top, end, loose)
    ensures KeepsLive(mem, lay, mem', lay, {p})
  {
    InsideTags(mem, mem', lay, base, top, end, p);
    InsideKeeps(mem, mem', lay, base, top, end, p);
  }

  /** Only words of chunk `p` past its size field differ; its foot only if it is in use. */
  ghost predicate Inside(mem: Memory, mem': Memory, lay: Layout, p: int)
    requires p in lay
  {
    && mem.Keys <= mem'.Keys
    && forall a :: a in mem && !(p + 8 <= a < Next(lay, p)) && (a != Next(lay, p) || !lay[p].used) ==> mem'[a] == mem[a]
  }

  lemma InsideTags(mem: Memory, mem': Memory, lay: Layout, base: int, top: int, end: int, p: int)
    requires Tiling(lay, base, top, end) && Tags(mem, lay, base, top) && p in lay && p != top && Inside(mem, mem', lay, p)
    ensures Tags(mem', lay, base, top)
  {
    forall q | q in lay ensures q + 4 in mem' && mem'[q + 4] == mem[q + 4] {
      assert q < p ==> Next(lay, q) <= p;
      assert q > p ==> Next(lay, p) <= q;
    }
    forall q | q in lay && q != top ensures TagAfter(mem', lay, q) {
      assert TagAfter(mem, lay, q);
      assert q < p ==> Next(lay, q) <= p;
      assert q > p ==> Next(lay, p) <= q && Next(lay, q) > q;
    }
  }

  lemma InsideKeeps(mem: Memory, mem': Memory, lay: Layout, base: int, top: int, end: int, p: int)
    requires Tiling(lay, base, top, end) && p in lay && Inside(mem, mem', lay, p)
    ensures KeepsLive(mem, lay, mem', lay, {p})
  {
    forall q | Live(lay, q) && q != p ensures forall a :: a in mem && Payload(lay, q, a) ==> mem'[a] == mem[a] {
      assert q < p ==> Next(lay, q) <= p;
      assert q > p ==> Next(lay, p) <= q;
    }
  }

  /** A free chunk follows a chunk in use. */
  lemma FreeAfterUsed(mem: Memory, lay: Layout, base: int, top: int, end: int, p: int)
    requires Tiling(lay, base, top, end) && Consolidated(lay, top) && Tags(mem, lay, base, top)
    requires Free(lay, top, p) || p == top
    ensures mem[p + 4].pinuse
  {
    if p != base {
      var q := Predecessor(lay, base, top, end, p);
      assert TagAfter(mem, lay, q);
      if !lay[q].used {
        assert Free(lay, top, q);
        assert false;
      }
    }
  }

  /** The loop of frontlink: past all larger chunks. */
  method FrontPlace(ghost lay: Layout, mem: Memory, bin: Bin, s: nat) returns (k: nat)
    requires forall p :: p in bin ==> SizeField(mem, p) == SizeAt(lay, p)
    ensures k <= |bin|
    ensures forall j :: 0 <= j < k ==> s < SizeAt(lay, bin[j])
    ensures k < |bin| ==> SizeAt(lay, bin[k]) <= s
  {
    k := 0;
    while k < |bin| && s < SizeField(mem, bin[k])
      invariant k <= |bin| && forall j :: 0 <= j < k ==> s < SizeAt(lay, bin[j])
    {
      k := k + 1;
    }
  }

  /** All chunks of a small bin have the same size, so the front is a sorted place. */
  lemma SmallFront(lay: Layout, top: int, bins: seq<Bin>, lr: Bin, loose: set<int>, p: int)
    requires BinsOk(lay, top, bins, lr, loose) && Aligned(lay) && p in lay && 0 <= lay[p].size < 512
    ensures var i := BinIndex(SizeAt(lay, p)); bins[i] != [] ==> SizeAt(lay, bins[i][0]) == SizeAt(lay, p)
  {
    var i := BinIndex(SizeAt(lay, p));
    if bins[i] != [] {
      assert bins[i][0] in bins[i];
      SmallBinExact(SizeAt(lay, p), SizeAt(lay, bins[i][0]));
    }
  }

  /** No chunk in a bin below `idx` is large enough. */
  ghost predicate Below(lay: Layout, bins: seq<Bin>, idx: nat, nb: nat) {
    forall j, p :: 0 <= j < idx && j < |bins| && p in bins[j] ==> SizeAt(lay, p) < nb
  }

  /** No free chunk outside the last-remainder list fits more tightly than `v`. */
  ghost predicate BestOfBins(lay: Layout, top: int, lr: Bin, nb: nat, v: int)
    requires v in lay
  {
    forall p {:trigger Free(lay, top, p)} :: Free(lay, top, p) && p !in lr && lay[p].size >= nb ==> lay[v].size <= lay[p].size
  }

  lemma SearchableBins(mem: Memory, lay: Layout, bins: seq<Bin>, lr: Bin, blocks: seq<bool>,
                       base: int, top: int, end: int, loose: set<int>)
    requires Ok(mem, lay, bins, lr, blocks, base, top, end, loose)
    ensures Searchable(lay, mem, bins)
  {
    forall i, p | 0 <= i < NAV && p in bins[i] ensures SizeField(mem, p) == SizeAt(lay, p) {
      assert Free(lay, top, p) && Next(lay, p) > p;
    }
  }

  /** Bins below the request's own hold only smaller chunks, bins above only larger ones. */
  lemma BinsBelow(lay: Layout, top: int, bins: seq<Bin>, lr: Bin, nb: nat)
    requires BinsOk(lay, top, bins, lr, {})
    ensures Below(lay, bins, BinIndex(nb), nb)
    ensures forall j, p :: BinIndex(nb) < j < NAV && p in bins[j] ==> SizeAt(lay, p) > nb
  {
    forall j, p | 0 <= j < NAV && p in bins[j]
      ensures j < BinIndex(nb) ==> SizeAt(lay, p) < nb
      ensures j > BinIndex(nb) ==> SizeAt(lay, p) > nb
    {
      if SizeAt(lay, p) <= nb {
        BinIndexMonotone(SizeAt(lay, p), nb);
      }
      if SizeAt(lay, p) >= nb {
        BinIndexMonotone(nb, SizeAt(lay, p));
      }
    }
  }

  /** A best fit from the request's own bin on is a best fit among all binned chunks. */
  lemma BinnedBest(lay: Layout, top: int, bins: seq<Bin>, lr: Bin, nb: nat, idx: nat, i: nat, k: nat)
    requires BinsOk(lay, top, bins, lr, {}) && Below(lay, bins, idx, nb) && BestFit(lay, bins, idx, nb, i, k)
    ensures Free(lay, top, bins[i][k]) && bins[i][k] !in lr && BestOfBins(lay, top, lr, nb, bins[i][k])
  {
    var v := bins[i][k];
    assert v in bins[i];
    forall p | Free(lay, top, p) && p !in lr && lay[p].size >= nb ensures lay[v].size <= lay[p].size {
      assert p in bins[BinIndex(SizeAt(lay, p))];
    }
  }

  /** The two small bins whose chunks fit without a remainder. */
  method SmallFit(ghost lay: Layout, ghost top: int, bins: seq<Bin>, ghost lr: Bin, nb: nat) returns (r: Option<int>)
    requires BinsOk(lay, top, bins, lr, {}) && Aligned(lay) && nb % 8 == 0 && MINSIZE <= nb < 504
    ensures r.Some? ==> Free(lay, top, r.value) && r.value !in lr && nb <= lay[r.value].size < nb + MINSIZE
    ensures r.Some? ==> BestOfBins(lay, top, lr, nb, r.value)
    ensures r.None? ==> bins[nb / 8] == [] && bins[nb / 8 + 1] == []
  {
    var i := nb / 8;
    var q := bins[i];
    if q == [] {
      q := bins[i + 1];
    }
    if q == [] {
      return None;
    }
    var v := q[|q| - 1];
    assert v in q;
    SmallFitBest(lay, top, bins, lr, nb, v);
    r := Some(v);
  }

  lemma SmallFitBest(lay: Layout, top: int, bins: seq<Bin>, lr: Bin, nb: nat, v: int)
    requires BinsOk(lay, top, bins, lr, {}) && Aligned(lay) && nb % 8 == 0 && MINSIZE <= nb < 504
    requires v in bins[nb / 8] || (bins[nb / 8] == [] && v in bins[nb / 8 + 1])
    ensures Free(lay, top, v) && v !in lr && nb <= lay[v].size < nb + MINSIZE && BestOfBins(lay, top, lr, nb, v)
  {
    var i := nb / 8;
    assert BinIndex(nb) == i && BinIndex(nb + 8) == i + 1;
    assert Free(lay, top, v);
    if v in bins[i] {
      SmallBinExact(nb, SizeAt(lay, v));
    } else {
      SmallBinExact(nb + 8, SizeAt(lay, v));
    }
    forall p | Free(lay, top, p) && p !in lr && lay[p].size >= nb ensures lay[v].size <= lay[p].size {
      assert p in bins[BinIndex(SizeAt(lay, p))];
      assert lay[p].size % 8 == 0;
    }
  }

  lemma SmallBelow(lay: Layout, top: int, bins: seq<Bin>, lr: Bin, nb: nat)
    requires BinsOk(lay, top, bins, lr, {}) && nb % 8 == 0 && MINSIZE <= nb < 504
    requires bins[nb / 8] == [] && bins[nb / 8 + 1] == []
    ensures Below(lay, bins, nb / 8 + 2, nb) && BinIndex(nb) == nb / 8
  {
    BinsBelow(lay, top, bins, lr, nb);
  }

  /** What the invariant says about one chunk and the tags around it. */
  lemma ChunkFacts(mem: Memory, lay: Layout, bins: seq<Bin>, lr: Bin, blocks: seq<bool>,
                   base: int, top: int, end: int, loose: set<int>, p: int)
    requires Ok(mem, lay, bins, lr, blocks, base, top, end, loose) && p in lay && p != top
    ensures Tiling(lay, base, top, end)
    ensures var n := Next(lay, p);
      && lay[p].size >= MINSIZE && n == p + SizeField(mem, p) && base <= p && n in lay && n <= top
      && p + 4 in mem && mem[p + 4].Head? && mem[p + 4].size == lay[p].size
      && n + 4 in mem && mem[n + 4] == Head(SizeField(mem, n), lay[p].used)
      && (!lay[p].used ==> lay[n].used && mem[p + 4].pinuse && n in mem && mem[n] == Foot(lay[p].size))
      && (forall q :: q in lay && p <= q < n ==> q == p)
      && (forall q :: q in loose ==> q in lay && (p < q ==> n <= q))
  {
    assert TagAfter(mem, lay, p);
    OnlyChunk(lay, base, top, end, p);
    if !lay[p].used {
      assert Free(lay, top, p);
      FreeAfterUsed(mem, lay, base, top, end, p);
    }
  }

  lemma LiveFacts(mem: Memory, lay: Layout, bins: seq<Bin>, lr: Bin, blocks: seq<bool>,
                  base: int, top: int, end: int, loose: set<int>, p: int)
    requires Ok(mem, lay, bins, lr, blocks, base, top, end, loose) && Live(lay, p)
    ensures p != top && lay[p].size >= MINSIZE && Next(lay, p) == p + SizeField(mem, p) && Next(lay, p) in lay
    ensures p + 4 in mem && mem[p + 4].Head? && mem[p + 4].size == lay[p].size
  {
    ChunkFacts(mem, lay, bins, lr, blocks, base, top, end, loose, p);
  }

  lemma BackedMore(mem: Memory, mem': Memory, base: int, end: int)
    requires Backed(mem, base, end) && mem.Keys <= mem'.Keys
    ensures Backed(mem', base, end)
  {
  }

  lemma LooseFree(mem: Memory, lay: Layout, bins: seq<Bin>, lr: Bin, blocks: seq<bool>,
                  base: int, top: int, end: int, loose: set<int>, p: int)
    requires Ok(mem, lay, bins, lr, blocks, base, top, end, loose) && p in loose
    ensures p in lay && !lay[p].used && p != top
  {
  }

  lemma TopFacts(mem: Memory, lay: Layout, bins: seq<Bin>, lr: Bin, blocks: seq<bool>,
                 base: int, top: int, end: int, loose: set<int>)
    requires Ok(mem, lay, bins, lr, blocks, base, top, end, loose)
    ensures Tiling(lay, base, top, end)
    ensures top in lay && !lay[top].used && Next(lay, top) == end && top + 4 in mem && mem[top + 4] == Head(lay[top].size, true)
    ensures forall q :: q in lay ==> q <= top
  {
    FreeAfterUsed(mem, lay, base, top, end, top);
  }

  /** Handing out a whole free chunk. */
  lemma TakeFreeStep(mem: Memory, lay: Layout, bins: seq<Bin>, lr: Bin, blocks: seq<bool>,
                     base: int, top: int, end: int, p: int, loose: set<int>)
    requires Ok(mem, lay, bins, lr, blocks, base, top, end, loose) && Aligned(lay) && p in loose && p in lay
    ensures p + SizeField(mem, p) == Next(lay, p)
    ensures var n := Next(lay, p);
      var mem' := mem[n + 4 := Head(SizeField(mem, n), true)];
      var lay' := Replace(lay, p, n, One(p, n, true));
      && Ok(mem', lay', bins, lr, blocks, base, top, end, loose - {p}) && Aligned(lay') && KeepsLive(mem, lay, mem', lay', {})
      && LiveSet(lay') == LiveSet(lay) + {p} && p in lay' && lay'[p].size == lay[p].size
  {
    hide Ok, KeepsLive, Tiling;
    LooseFree(mem, lay, bins, lr, blocks, base, top, end, loose, p);
    ChunkFacts(mem, lay, bins, lr, blocks, base, top, end, loose, p);
    var n := Next(lay, p);
    var mem' := mem[n + 4 := Head(SizeField(mem, n), true)];
    var lay' := Replace(lay, p, n, One(p, n, true));
    OneAligned(lay, p, n, true);
    hide Aligned;
    assert loose - {p} == set q | q in loose && !(p <= q < n);
    RedivideOne(mem, mem', lay, bins, lr, blocks, base, top, end, loose, p, n, true, loose - {p});
    KeepsLiveFree(mem, lay, mem', lay', p, n);
    LiveAfter(lay, p, n, One(p, n, true));
    assert LiveSet(One(p, n, true)) == {p};
    InReplace(lay, p, n, One(p, n, true), p);
  }

  /** The words written when a free chunk is divided. */
  lemma SplitWords(mem: Memory, p: int, r: int, n: int)
    requires p + MINSIZE <= r && r + MINSIZE <= n && n + 4 in mem
    ensures var mem' := mem[p + 4 := Head(r - p, true)][r + 4 := Head(n - r, true)][n := Foot(n - r)];
      && Within(mem, mem', p, n)
      && mem'[p + 4] == Head(r - p, true) && mem'[r + 4] == Head(n - r, true) && mem'[n] == Foot(n - r)
      && n + 4 in mem' && mem'[n + 4] == mem[n + 4]
  {
  }

  lemma SplitFreeMem(mem: Memory, lay: Layout, bins: seq<Bin>, lr: Bin, blocks: seq<bool>,
                     base: int, top: int, end: int, p: int, nb: int, loose: set<int>)
    requires Ok(mem, lay, bins, lr, blocks, base, top, end, loose)
    requires p in loose && p in lay && nb >= MINSIZE && lay[p].size >= nb + MINSIZE
    ensures p + SizeField(mem, p) == Next(lay, p) && p + nb !in loose
    ensures var n, r := Next(lay, p), p + nb;
      var mem' := mem[p + 4 := Head(nb, true)][r + 4 := Head(n - r, true)][n := Foot(n - r)];
      var lay' := Replace(lay, p, n, Two(p, r, n, false));
      Ok(mem', lay', bins, lr, blocks, base, top, end, loose - {p} + {r}) && KeepsLive(mem, lay, mem', lay', {})
  {
    hide Ok, KeepsLive, Tiling;
    LooseFree(mem, lay, bins, lr, blocks, base, top, end, loose, p);
    ChunkFacts(mem, lay, bins, lr, blocks, base, top, end, loose, p);
    var n, r := Next(lay, p), p + nb;
    var mem' := mem[p + 4 := Head(nb, true)][r + 4 := Head(n - r, true)][n := Foot(n - r)];
    SplitWords(mem, p, r, n);
    hide Within;
    assert loose - {p} + {r} == (set q | q in loose && !(p <= q < n)) + {r};
    RedivideTwo(mem, mem', lay, bins, lr, blocks, base, top, end, loose, p, r, n, false, loose - {p} + {r});
    KeepsLiveFree(mem, lay, mem', Replace(lay, p, n, Two(p, r, n, false)), p, n);
  }

  /** Dividing a chunk that was not in use puts its front into use. */
  lemma SplitLive(lay: Layout, base: int, top: int, end: int, p: int, mid: int, hi: int)
    requires Tiling(lay, base, top, end) && p in lay && !lay[p].used && hi == Next(lay, p) && p < mid < hi
    ensures var lay' := Replace(lay, p, hi, Two(p, mid, hi, false));
      LiveSet(lay') == LiveSet(lay) + {p} && p in lay' && lay'[p].size == mid - p
  {
    var cs := Two(p, mid, hi, false);
    OnlyChunk(lay, base, top, end, p);
    LiveAfter(lay, p, hi, cs);
    assert LiveSet(cs) == {p};
    InReplace(lay, p, hi, cs, p);
  }

  /** Handing out the front of a free chunk. */
  lemma SplitFreeStep(mem: Memory, lay: Layout, bins: seq<Bin>, lr: Bin, blocks: seq<bool>,
                      base: int, top: int, end: int, p: int, nb: int, loose: set<int>)
    requires Ok(mem, lay, bins, lr, blocks, base, top, end, loose) && Aligned(lay)
    requires p in loose && p in lay && nb >= MINSIZE && nb % 8 == 0 && lay[p].size >= nb + MINSIZE
    ensures p + SizeField(mem, p) == Next(lay, p) && p + nb !in loose
    ensures var n, r := Next(lay, p), p + nb;
      var mem' := mem[p + 4 := Head(nb, true)][r + 4 := Head(n - r, true)][n := Foot(n - r)];
      var lay' := Replace(lay, p, n, Two(p, r, n, false));
      && Ok(mem', lay', bins, lr, blocks, base, top, end, loose - {p} + {r}) && Aligned(lay') && KeepsLive(mem, lay, mem', lay', {})
      && LiveSet(lay') == LiveSet(lay) + {p} && p in lay' && lay'[p].size == nb
  {
    hide Ok, KeepsLive, Tiling;
    LooseFree(mem, lay, bins, lr, blocks, base, top, end, loose, p);
    ChunkFacts(mem, lay, bins, lr, blocks, base, top, end, loose, p);
    SplitLive(lay, base, top, end, p, p + nb, Next(lay, p));
    TwoAligned(lay, p, p + nb, Next(lay, p), false);
    hide Aligned;
    SplitFreeMem(mem, lay, bins, lr, blocks, base, top, end, p, nb, loose);
  }

  lemma SplitTopMem(mem: Memory, lay: Layout, bins: seq<Bin>, lr: Bin, blocks: seq<bool>,
                    base: int, top: int, end: int, nb: int)
    requires Ok(mem, lay, bins, lr, blocks, base, top, end, {})
    requires top in lay && nb >= MINSIZE && lay[top].size >= nb + MINSIZE
    ensures var mid := top + nb;
      var mem' := mem[top + 4 := Head(nb, true)][mid + 4 := Head(end - mid, true)];
      var lay' := Replace(lay, top, end, Two(top, mid, end, false));
      Ok(mem', lay', bins, lr, blocks, base, mid, end, {}) && KeepsLive(mem, lay, mem', lay', {})
  {
    hide Ok, KeepsLive, Tiling;
    TopFacts(mem, lay, bins, lr, blocks, base, top, end, {});
    var mid := top + nb;
    var mem' := mem[top + 4 := Head(nb, true)][mid + 4 := Head(end - mid, true)];
    RedivideTwoTop(mem, mem', lay, bins, lr, blocks, base, top, end, {}, top, mid, {});
    KeepsLiveFree(mem, lay, mem', Replace(lay, top, end, Two(top, mid, end, false)), top, end);
  }

  /** Handing out the front of the top chunk. */
  lemma SplitTopStep(mem: Memory, lay: Layout, bins: seq<Bin>, lr: Bin, blocks: seq<bool>,
                     base: int, top: int, end: int, nb: int)
    requires Ok(mem, lay, bins, lr, blocks, base, top, end, {}) && Aligned(lay)
    requires top in lay && nb >= MINSIZE && nb % 8 == 0 && lay[top].size >= nb + MINSIZE
    ensures SizeField(mem, top) == lay[top].size == end - top
    ensures var mid := top + nb;
      var mem' := mem[top + 4 := Head(nb, true)][mid + 4 := Head(end - mid, true)];
      var lay' := Replace(lay, top, end, Two(top, mid, end, false));
      && Ok(mem', lay', bins, lr, blocks, base, mid, end, {}) && Aligned(lay') && KeepsLive(mem, lay, mem', lay', {})
      && LiveSet(lay') == LiveSet(lay) + {top} && top in lay' && lay'[top].size == nb
  {
    hide Ok, KeepsLive, Tiling;
    TopFacts(mem, lay, bins, lr, blocks, base, top, end, {});
    SplitLive(lay, base, top, end, top, top + nb, end);
    TwoAligned(lay, top, top + nb, end, false);
    hide Aligned;
    SplitTopMem(mem, lay, bins, lr, blocks, base, top, end, nb);
  }

  /** A chunk's extent holds no other chunk. */
  lemma OnlyChunk(lay: Layout, base: int, top: int, end: int, p: int)
    requires Tiling(lay, base, top, end) && p in lay
    ensures forall q :: q in lay && p <= q < Next(lay, p) ==> q == p
  {
  }

  /** Re-dividing a region without live chunks spares all of them. */
  lemma KeepsLiveFree(mem: Memory, lay: Layout, mem': Memory, lay': Layout, lo: int, hi: int)
    requires KeepsLive(mem, lay, mem', lay', set p | p in lay && lo <= p < hi)
    requires forall p :: p in lay && lo <= p < hi ==> !lay[p].used
    ensures KeepsLive(mem, lay, mem', lay', {})
  {
  }

  lemma LiveAfter(lay: Layout, lo: int, hi: int, cs: Layout)
    requires forall p :: p in cs ==> lo <= p < hi
    ensures LiveSet(Replace(lay, lo, hi, cs)) == (set p | p in LiveSet(lay) && !(lo <= p < hi)) + LiveSet(cs)
  {
    forall p ensures p in LiveSet(Replace(lay, lo, hi, cs)) <==>
                     p in (set p | p in LiveSet(lay) && !(lo <= p < hi)) + LiveSet(cs) {
      InReplace(lay, lo, hi, cs, p);
    }
  }

  lemma KeepsLiveRefl(mem: Memory, lay: Layout)
    ensures KeepsLive(mem, lay, mem, lay, {})
  {
  }

  lemma RemainderFacts(mem: Memory, lay: Layout, bins: seq<Bin>, lr: Bin, blocks: seq<bool>,
                       base: int, top: int, end: int)
    requires Ok(mem, lay, bins, lr, blocks, base, top, end, {}) && lr != []
    ensures lr == [lr[0]] && Free(lay, top, lr[0]) && SizeField(mem, lr[0]) == lay[lr[0]].size == SizeAt(lay, lr[0])
  {
    assert lr[0] in lr;
    assert Next(lay, lr[0]) > lr[0];
  }

  /** The amount malloc_extend_top asks of MORECORE: a whole number of pages. */
  function SbrkSize(nb: nat, topPad: nat, page: nat): (n: nat)
    requires page > 0
    ensures nb + topPad + MINSIZE <= n < nb + topPad + MINSIZE + page
  {
    PageRounding(nb + topPad + MINSIZE, page);
    (nb + topPad + MINSIZE + page - 1) / page * page
  }

  lemma PageRounding(x: nat, page: nat)
    requires page > 0
    ensures x <= (x + page - 1) / page * page < x + page
  {
    var q := (x + page - 1) / page;
    assert (x + page - 1) == q * page + (x + page - 1) % page;
  }

  lemma PageMultiple(k: nat, page: nat)
    requires page % 8 == 0
    ensures k * page % 8 == 0
  {
    var m := page / 8;
    EightFold(k, m);
    assert page == 8 * m;
    MultipleOfEight(k * m);
  }

  lemma EightFold(k: nat, m: nat)
    ensures k * (8 * m) == 8 * (k * m)
  {
  }

  lemma MultipleOfEight(n: nat)
    ensures 8 * n % 8 == 0
  {
  }

  /** Freshly obtained words. */
  function NewWords(from: int, to: int): Memory {
    map a | from <= a < to && a % 4 == 0 :: User(0)
  }

  /** Adding contiguous space to the top chunk. */
  lemma ExtendStep(mem: Memory, lay: Layout, bins: seq<Bin>, lr: Bin, blocks: seq<bool>,
                   base: int, top: int, end: int, more: int)
    requires Ok(mem, lay, bins, lr, blocks, base, top, end, {}) && top in lay && more >= MINSIZE && end + more <= LIMIT
    ensures var mem' := (NewWords(end, end + more) + mem)[top + 4 := Head(lay[top].size + more, true)];
      var lay' := lay[top := Chunk(lay[top].size + more, false)];
      && Ok(mem', lay', bins, lr, blocks, base, top, end + more, {}) && KeepsLive(mem, lay, mem', lay', {})
      && LiveSet(lay') == LiveSet(lay)
  {
    var mem' := (NewWords(end, end + more) + mem)[top + 4 := Head(lay[top].size + more, true)];
    var lay' := lay[top := Chunk(lay[top].size + more, false)];
    TopFacts(mem, lay, bins, lr, blocks, base, top, end, {});
    ExtendTiling(lay, base, top, end, more);
    ExtendTags(mem, mem', lay, base, top, end, more);
    ExtendBins(lay, top, bins, lr, more);
    assert Consolidated(lay', top) by {
      forall p | Free(lay', top, p) ensures Next(lay', p) in lay' && lay'[Next(lay', p)].used {
        assert Free(lay, top, p);
      }
    }
    assert KeepsLive(mem, lay, mem', lay', {}) by {
      forall p | Live(lay, p) ensures Live(lay', p) && forall a :: a in mem && Payload(lay, p, a) ==> mem'[a] == mem[a] {
        assert Next(lay, p) <= top;
      }
    }
  }

  lemma SbrkAligned(nb: nat, topPad: nat, page: nat)
    requires page > 0 && page % 8 == 0
    ensures SbrkSize(nb, topPad, page) % 8 == 0
  {
    PageMultiple((nb + topPad + MINSIZE + page - 1) / page, page);
  }

  lemma TopSize(lay: Layout, base: int, top: int, end: int)
    requires Tiling(lay, base, top, end)
    ensures top in lay && lay[top].size >= 0
  {
  }

  lemma ExtendFrame(mem: Memory, lay: Layout, base: int, top: int, end: int, more: int)
    requires Aligned(lay) && Backed(mem, base, end) && top in lay && more >= 0 && more % 8 == 0
    ensures Aligned(lay[top := Chunk(lay[top].size + more, false)])
    ensures Backed((NewWords(end, end + more) + mem)[top + 4 := Head(lay[top].size + more, true)], base, end + more)
  {
  }

  lemma ExtendTiling(lay: Layout, base: int, top: int, end: int, more: int)
    requires Tiling(lay, base, top, end) && more >= MINSIZE
    ensures Tiling(lay[top := Chunk(lay[top].size + more, false)], base, top, end + more)
  {
    var lay' := lay[top := Chunk(lay[top].size + more, false)];
    assert Next(lay, top) == end;
    forall p | p in lay' && p != top ensures lay'[p].size >= MINSIZE && Next(lay', p) in lay' {
      assert Next(lay, p) in lay;
    }
    forall p, q | p in lay' && q in lay' && p < q ensures Next(lay', p) <= q {
      assert Next(lay, p) <= q;
    }
  }

  lemma ExtendTags(mem: Memory, mem': Memory, lay: Layout, base: int, top: int, end: int, more: int)
    requires Tiling(lay, base, top, end) && Tags(mem, lay, base, top) && top + 4 in mem && mem[top + 4].pinuse
    requires mem' == (NewWords(end, end + more) + mem)[top + 4 := Head(lay[top].size + more, true)]
    ensures Tags(mem', lay[top := Chunk(lay[top].size + more, false)], base, top)
  {
    var lay' := lay[top := Chunk(lay[top].size + more, false)];
    forall p | p in lay' && p != top ensures TagAfter(mem', lay', p) {
      assert TagAfter(mem, lay, p) && Next(lay, p) <= top;
    }
  }

  lemma ExtendBins(lay: Layout, top: int, bins: seq<Bin>, lr: Bin, more: int)
    requires BinsOk(lay, top, bins, lr, {}) && top in lay
    ensures BinsOk(lay[top := Chunk(lay[top].size + more, false)], top, bins, lr, {})
  {
    var lay' := lay[top := Chunk(lay[top].size + more, false)];
    forall p ensures Free(lay', top, p) <==> Free(lay, top, p) {
    }
    forall p | Free(lay, top, p) ensures SizeAt(lay', p) == SizeAt(lay, p) {
    }
    forall i | 0 <= i < NAV ensures BinSorted(lay', bins[i]) {
      forall j | 0 <= j < |bins[i]| ensures SizeAt(lay', bins[i][j]) == SizeAt(lay, bins[i][j]) {
        assert bins[i][j] in bins[i];
      }
    }
  }

  /** Where malloc goes on after step 1: nothing below fits, and everything above does. */
  ghost predicate ScanFrom(lay: Layout, bins: seq<Bin>, idx: nat, nb: nat) {
    && idx < |bins| && Below(lay, bins, idx, nb)
    && (idx > BinIndex(nb) || exists p :: p in bins[idx] && SizeAt(lay, p) >= nb)
  }

  /** Binning the last remainder, if it is too small, does not disturb the search. */
  lemma StillScanFrom(lay: Layout, top: int, bins: seq<Bin>, lr: Bin, bins': seq<Bin>, idx: nat, nb: nat)
    requires BinsOk(lay, top, bins, lr, {}) && BinsOk(lay, top, bins', [], {}) && ScanFrom(lay, bins, idx, nb)
    requires forall p :: p in lr ==> SizeAt(lay, p) < nb
    ensures ScanFrom(lay, bins', idx, nb) && FitsFrom(lay, bins', idx, nb)
  {
    forall j, p | 0 <= j < idx && p in bins'[j] ensures SizeAt(lay, p) < nb {
      assert Free(lay, top, p);
      assert p in lr || p in bins[j];
    }
    if idx > BinIndex(nb) {
      BinsBelow(lay, top, bins', [], nb);
    } else {
      var p :| p in bins[idx] && SizeAt(lay, p) >= nb;
      assert Free(lay, top, p) && p in bins'[idx];
    }
  }

  /** When the scan finds nothing, no free chunk fits. */
  lemma NothingFits(lay: Layout, top: int, bins: seq<Bin>, idx: nat, nb: nat)
    requires BinsOk(lay, top, bins, [], {}) && Below(lay, bins, idx, nb) && Unfit(lay, bins, idx, NAV, nb)
    ensures NoneFits(lay, top, nb)
  {
    forall p | Free(lay, top, p) ensures lay[p].size < nb {
      assert p in bins[BinIndex(SizeAt(lay, p))];
    }
  }

  /** The best fit once the last remainder has been binned is the best fit of before, too. */
  lemma BestBefore(lay: Layout, top: int, lr: Bin, nb: nat, v: int)
    requires v in lay && BestOfBins(lay, top, [], nb, v)
    ensures BestOfBins(lay, top, lr, nb, v)
  {
  }

  // ----- free -----

  /** A clear PREV_INUSE bit means that the foot leads to a free chunk right before. */
  lemma FreeBefore(mem: Memory, lay: Layout, bins: seq<Bin>, lr: Bin, blocks: seq<bool>,
                   base: int, top: int, end: int, loose: set<int>, p: int)
    requires Ok(mem, lay, bins, lr, blocks, base, top, end, loose) && p in lay && p + 4 in mem && mem[p + 4].Head? && !mem[p + 4].pinuse
    ensures p in mem && mem[p].Foot?
    ensures var q := p - mem[p].size; q < p && Free(lay, top, q) && Next(lay, q) == p && q + 4 in mem && mem[q + 4] == Head(lay[q].size, true)
  {
    var q := Predecessor(lay, base, top, end, p);
    assert TagAfter(mem, lay, q);
    assert Free(lay, top, q);
    FreeAfterUsed(mem, lay, base, top, end, q);
  }

  /** Whether a chunk is free can be read off the size field after it. */
  lemma FreeBit(mem: Memory, lay: Layout, bins: seq<Bin>, lr: Bin, blocks: seq<bool>,
                base: int, top: int, end: int, loose: set<int>, n: int)
    requires Ok(mem, lay, bins, lr, blocks, base, top, end, loose) && n in lay && n != top
    ensures n + SizeField(mem, n) == Next(lay, n) && Next(lay, n) in lay && Next(lay, n) + 4 in mem && mem[Next(lay, n) + 4].Head?
    ensures mem[Next(lay, n) + 4].pinuse == lay[n].used
    ensures !lay[n].used ==> Free(lay, top, n) && lay[Next(lay, n)].used && Next(lay, n) != top
  {
    assert TagAfter(mem, lay, n);
    if !lay[n].used {
      assert Free(lay, top, n);
    }
  }

  /** The chunks from `lo` to `hi` are `p`, in use, and free neighbours that are loose. */
  ghost predicate AroundLive(lay: Layout, loose: set<int>, lo: int, p: int, hi: int) {
    && lo in lay && Live(lay, p) && lo <= p < hi
    && (forall q :: q in lay && lo <= q < hi ==> q == p || (q in loose && !lay[q].used))
    && (forall q :: q in loose ==> lo <= q < hi)
  }

  /** Consolidating `p` with its free neighbours into one free chunk. */
  lemma FreeStep(mem: Memory, lay: Layout, bins: seq<Bin>, lr: Bin, blocks: seq<bool>,
                 base: int, top: int, end: int, loose: set<int>, lo: int, p: int, hi: int)
    requires Ok(mem, lay, bins, lr, blocks, base, top, end, loose) && Aligned(lay)
    requires AroundLive(lay, loose, lo, p, hi) && hi in lay && lay[hi].used && hi - lo >= MINSIZE
    requires lo + 4 in mem && mem[lo + 4].Head? && mem[lo + 4].pinuse && hi + 4 in mem && mem[hi + 4].Head?
    ensures var mem' := mem[hi + 4 := Head(SizeField(mem, hi), false)][lo + 4 := Head(hi - lo, true)][hi := Foot(hi - lo)];
      var lay' := Replace(lay, lo, hi, One(lo, hi, false));
      && Ok(mem', lay', bins, lr, blocks, base, top, end, {lo}) && Aligned(lay') && KeepsLive(mem, lay, mem', lay', {p})
      && LiveSet(lay') == LiveSet(lay) - {p}
  {
    var mem' := mem[hi + 4 := Head(SizeField(mem, hi), false)][lo + 4 := Head(hi - lo, true)][hi := Foot(hi - lo)];
    var lay' := Replace(lay, lo, hi, One(lo, hi, false));
    hide Ok;
    OneAligned(lay, lo, hi, false);
    hide Aligned;
    assert Within(mem, mem', lo, hi);
    assert {lo} == (set q | q in loose && !(lo <= q < hi)) + {lo};
    RedivideOne(mem, mem', lay, bins, lr, blocks, base, top, end, loose, lo, hi, false, {lo});
    KeepsLiveBut(mem, lay, mem', lay', loose, lo, p, hi);
    LiveWithout(lay, loose, lo, p, hi, One(lo, hi, false));
  }

  lemma KeepsLiveBut(mem: Memory, lay: Layout, mem': Memory, lay': Layout, loose: set<int>, lo: int, p: int, hi: int)
    requires AroundLive(lay, loose, lo, p, hi) && KeepsLive(mem, lay, mem', lay', set q | q in lay && lo <= q < hi)
    ensures KeepsLive(mem, lay, mem', lay', {p})
  {
  }

  lemma LiveWithout(lay: Layout, loose: set<int>, lo: int, p: int, hi: int, cs: Layout)
    requires AroundLive(lay, loose, lo, p, hi) && LiveSet(cs) == {} && forall q :: q in cs ==> lo <= q < hi
    ensures LiveSet(Replace(lay, lo, hi, cs)) == LiveSet(lay) - {p}
  {
    LiveAfter(lay, lo, hi, cs);
  }

  lemma DiffAligned(a: int, b: int)
    requires a % 8 == 0 && b % 8 == 0
    ensures (a - b) % 8 == 0
  {
  }

  lemma EndAligned(lay: Layout, top: int, end: int, p: int)
    requires Aligned(lay) && p in lay && top in lay && Next(lay, top) == end
    ensures (end - p) % 8 == 0
  {
    assert p % 8 == 0 && top % 8 == 0 && lay[top].size % 8 == 0;
  }

  /** Consolidating `p`, the free chunk before it if any, and the top chunk. */
  lemma FreeTopStep(mem: Memory, lay: Layout, bins: seq<Bin>, lr: Bin, blocks: seq<bool>,
                    base: int, top: int, end: int, loose: set<int>, lo: int, p: int)
    requires Ok(mem, lay, bins, lr, blocks, base, top, end, loose) && Aligned(lay)
    requires AroundLive(lay, loose, lo, p, top) && top in lay && Next(lay, top) == end && end - lo >= MINSIZE
    requires lo + 4 in mem && mem[lo + 4].Head? && mem[lo + 4].pinuse && lo <= top <= end && !lay[top].used
    requires forall q :: q in lay ==> q <= top
    ensures var mem' := mem[lo + 4 := Head(end - lo, true)];
      var lay' := Replace(lay, lo, end, One(lo, end, false));
      && Ok(mem', lay', bins, lr, blocks, base, lo, end, {}) && Aligned(lay') && KeepsLive(mem, lay, mem', lay', {p})
      && LiveSet(lay') == LiveSet(lay) - {p}
  {
    var mem' := mem[lo + 4 := Head(end - lo, true)];
    var lay' := Replace(lay, lo, end, One(lo, end, false));
    hide Ok;
    EndAligned(lay, top, end, lo);
    OneAligned(lay, lo, end, false);
    hide Aligned;
    assert {} == set q | q in loose && q < lo;
    RedivideTop(mem, mem', lay, bins, lr, blocks, base, top, end, loose, lo, {});
    assert KeepsLive(mem, lay, mem', lay', {p});
    LiveAfter(lay, lo, end, One(lo, end, false));
    assert LiveSet(One(lo, end, false)) == {};
  }

  /** The neighbours as fREe finds them. */
  lemma Around(mem: Memory, lay: Layout, bins: seq<Bin>, lr: Bin, blocks: seq<bool>,
               base: int, top: int, end: int, loose: set<int>, lo: int, p: int, hi: int)
    requires Ok(mem, lay, bins, lr, blocks, base, top, end, loose) && Live(lay, p)
    requires lo == p || (lo in loose && Next(lay, lo) == p)
    requires p != top && (hi == Next(lay, p) || (Next(lay, p) in loose && hi == Next(lay, Next(lay, p))))
    requires loose == (if lo == p then {} else {lo}) + (if hi == Next(lay, p) then {} else {Next(lay, p)})
    ensures AroundLive(lay, loose, lo, p, hi) && hi in lay && hi - lo >= MINSIZE
  {
    var n := Next(lay, p);
    assert lo != p ==> Free(lay, top, lo);
    assert n != hi ==> Free(lay, top, n);
    forall q | q in lay && lo <= q < hi ensures q == p || q in loose {
      assert Next(lay, lo) <= q || q == lo;
      if p < q {
        assert n <= q;
        assert Next(lay, n) <= q || q == n;
      }
    }
  }

  // ----- realloc -----

  /** Address of the i-th data word of chunk `p`. */
  function DataWord(p: int, i: int): int {
    p + 8 + 4 * i
  }

  /** The data words of a block of `n` bytes, size field included, are the same at `q` in
      `mem'` as at `p` in `mem`. */
  ghost predicate SameWords(mem: Memory, p: int, mem': Memory, q: int, n: int) {
    forall i {:trigger DataWord(p, i)} {:trigger DataWord(q, i)} :: 0 <= i && 4 * i + 8 <= n ==>
      DataWord(p, i) in mem && DataWord(q, i) in mem' && mem'[DataWord(q, i)] == mem[DataWord(p, i)]
  }

  /** Every chunk from `lo` to `hi` is in use and on the way out, or free and loose. */
  ghost predicate Gathered(lay: Layout, loose: set<int>, out: set<int>, lo: int, hi: int) {
    && lo in lay && lo < hi
    && (forall q :: q in lay && lo <= q < hi ==> q in out || (q in loose && !lay[q].used))
    && (forall q :: q in loose ==> lo <= q < hi)
    && (forall q :: q in out ==> q in lay && lay[q].used && lo <= q < hi)
  }

  /** The bytes already copied into the region leave its outer tags alone. */
  ghost predicate TagsIntact(mem: Memory, mem': Memory, lo: int, hi: int) {
    && Within(mem, mem', lo, hi)
    && lo + 4 in mem && mem[lo + 4].Head? && lo + 4 in mem' && mem'[lo + 4] == mem[lo + 4]
    && (hi + 4 in mem ==> hi + 4 in mem' && mem'[hi + 4] == mem[hi + 4])
  }

  /** The gathered region becomes one chunk in use. */
  lemma GatherOne(mem: Memory, mem': Memory, lay: Layout, bins: seq<Bin>, lr: Bin, blocks: seq<bool>,
                  base: int, top: int, end: int, loose: set<int>, out: set<int>, lo: int, hi: int)
    requires Ok(mem, lay, bins, lr, blocks, base, top, end, loose) && Aligned(lay)
    requires Gathered(lay, loose, out, lo, hi) && hi in lay && hi - lo >= MINSIZE
    requires TagsIntact(mem, mem', lo, hi) && hi + 4 in mem && mem[hi + 4].Head?
    ensures var mem'' := mem'[lo + 4 := Head(hi - lo, mem[lo + 4].pinuse)][hi + 4 := Head(SizeField(mem, hi), true)];
      var lay' := Replace(lay, lo, hi, One(lo, hi, true));
      && Ok(mem'', lay', bins, lr, blocks, base, top, end, {}) && Aligned(lay') && KeepsLive(mem, lay, mem'', lay', out)
      && LiveSet(lay') == LiveSet(lay) - out + {lo} && lo in lay' && lay'[lo].size == hi - lo
  {
    hide Ok;
    var mem'' := mem'[lo + 4 := Head(hi - lo, mem[lo + 4].pinuse)][hi + 4 := Head(SizeField(mem, hi), true)];
    var lay' := Replace(lay, lo, hi, One(lo, hi, true));
    OneAligned(lay, lo, hi, true);
    hide Aligned;
    assert {} == set q | q in loose && !(lo <= q < hi);
    RedivideOne(mem, mem'', lay, bins, lr, blocks, base, top, end, loose, lo, hi, true, {});
    GatherKeeps(mem, lay, mem'', lay', loose, out, lo, hi);
    LiveAfter(lay, lo, hi, One(lo, hi, true));
    assert LiveSet(One(lo, hi, true)) == {lo};
    GatherLive(lay, loose, out, lo, hi);
    InReplace(lay, lo, hi, One(lo, hi, true), lo);
  }

  lemma GatherKeeps(mem: Memory, lay: Layout, mem': Memory, lay': Layout, loose: set<int>, out: set<int>, lo: int, hi: int)
    requires Gathered(lay, loose, out, lo, hi) && KeepsLive(mem, lay, mem', lay', set q | q in lay && lo <= q < hi)
    ensures KeepsLive(mem, lay, mem', lay', out)
  {
  }

  lemma GatherLive(lay: Layout, loose: set<int>, out: set<int>, lo: int, hi: int)
    requires Gathered(lay, loose, out, lo, hi)
    ensures (set q | q in LiveSet(lay) && !(lo <= q < hi)) == LiveSet(lay) - out
  {
  }

  /** The gathered region becomes two chunks in use, the second to be freed. */
  lemma GatherTwo(mem: Memory, mem': Memory, lay: Layout, bins: seq<Bin>, lr: Bin, blocks: seq<bool>,
                  base: int, top: int, end: int, loose: set<int>, out: set<int>, lo: int, mid: int, hi: int)
    requires Ok(mem, lay, bins, lr, blocks, base, top, end, loose) && Aligned(lay)
    requires Gathered(lay, loose, out, lo, hi) && hi in lay && mid - lo >= MINSIZE && hi - mid >= MINSIZE && (mid - lo) % 8 == 0
    requires TagsIntact(mem, mem', lo, hi) && hi + 4 in mem && mem[hi + 4].Head?
    ensures var mem'' := mem'[lo + 4 := Head(mid - lo, mem[lo + 4].pinuse)][mid + 4 := Head(hi - mid, true)][hi + 4 := Head(SizeField(mem, hi), true)];
      var lay' := Replace(lay, lo, hi, Two(lo, mid, hi, true));
      && Ok(mem'', lay', bins, lr, blocks, base, top, end, {}) && Aligned(lay') && KeepsLive(mem, lay, mem'', lay', out)
      && LiveSet(lay') == LiveSet(lay) - out + {lo, mid} && lo in lay' && lay'[lo].size == mid - lo
  {
    hide Ok;
    var mem'' := mem'[lo + 4 := Head(mid - lo, mem[lo + 4].pinuse)][mid + 4 := Head(hi - mid, true)][hi + 4 := Head(SizeField(mem, hi), true)];
    var lay' := Replace(lay, lo, hi, Two(lo, mid, hi, true));
    assert (hi - mid) % 8 == 0;
    TwoAligned(lay, lo, mid, hi, true);
    hide Aligned;
    assert {} == set q | q in loose && !(lo <= q < hi);
    RedivideTwo(mem, mem'', lay, bins, lr, blocks, base, top, end, loose, lo, mid, hi, true, {});
    GatherKeeps(mem, lay, mem'', lay', loose, out, lo, hi);
    LiveAfter(lay, lo, hi, Two(lo, mid, hi, true));
    assert LiveSet(Two(lo, mid, hi, true)) == {lo, mid};
    GatherLive(lay, loose, out, lo, hi);
    InReplace(lay, lo, hi, Two(lo, mid, hi, true), lo);
  }

  /** The gathered end of the arena becomes a chunk in use and a new top chunk. */
  lemma GatherTop(mem: Memory, mem': Memory, lay: Layout, bins: seq<Bin>, lr: Bin, blocks: seq<bool>,
                  base: int, top: int, end: int, loose: set<int>, p: int, lo: int, mid: int)
    requires Ok(mem, lay, bins, lr, blocks, base, top, end, loose) && Aligned(lay)
    requires Gathered(lay, loose, {p}, lo, top) && top in lay && !lay[top].used && Next(lay, top) == end && top < end
    requires forall q :: q in lay ==> q <= top
    requires mid - lo >= MINSIZE && end - mid >= MINSIZE && (mid - lo) % 8 == 0
    requires TagsIntact(mem, mem', lo, end)
    ensures var mem'' := mem'[mid + 4 := Head(end - mid, true)][lo + 4 := Head(mid - lo, mem[lo + 4].pinuse)];
      var lay' := Replace(lay, lo, end, Two(lo, mid, end, false));
      && Ok(mem'', lay', bins, lr, blocks, base, mid, end, {}) && Aligned(lay') && KeepsLive(mem, lay, mem'', lay', {p})
      && LiveSet(lay') == LiveSet(lay) - {p} + {lo} && lo in lay' && lay'[lo].size == mid - lo
  {
    hide Ok;
    var mem'' := mem'[mid + 4 := Head(end - mid, true)][lo + 4 := Head(mid - lo, mem[lo + 4].pinuse)];
    var lay' := Replace(lay, lo, end, Two(lo, mid, end, false));
    EndAligned(lay, top, end, lo);
    DiffAligned(end - lo, mid - lo);
    TwoAligned(lay, lo, mid, end, false);
    hide Aligned;
    assert {} == set q | q in loose && q < lo;
    RedivideTwoTop(mem, mem'', lay, bins, lr, blocks, base, top, end, loose, lo, mid, {});
    assert KeepsLive(mem, lay, mem'', lay', {p}) by { GatherTopKeeps(mem, lay, mem'', lay', loose, p, lo, top, end); }
    LiveAfter(lay, lo, end, Two(lo, mid, end, false));
    assert LiveSet(Two(lo, mid, end, false)) == {lo};
    assert (set q | q in LiveSet(lay) && !(lo <= q < end)) == LiveSet(lay) - {p};
    InReplace(lay, lo, end, Two(lo, mid, end, false), lo);
  }

  lemma GatherTopKeeps(mem: Memory, lay: Layout, mem': Memory, lay': Layout, loose: set<int>, p: int, lo: int, top: int, end: int)
    requires Gathered(lay, loose, {p}, lo, top) && top in lay && !lay[top].used && forall q :: q in lay ==> q <= top
    requires KeepsLive(mem, lay, mem', lay', set q | q in lay && lo <= q < end)
    ensures KeepsLive(mem, lay, mem', lay', {p})
  {
  }

  /** The data words of a chunk are backed by memory. */
  lemma DataBacked(mem: Memory, lay: Layout, bins: seq<Bin>, lr: Bin, blocks: seq<bool>,
                   base: int, top: int, end: int, loose: set<int>, p: int, q: int, n: int)
    requires Ok(mem, lay, bins, lr, blocks, base, top, end, loose) && Aligned(lay) && Backed(mem, base, end)
    requires p in lay && p != top && base <= q <= p && q in lay && q + n <= Next(lay, p)
    ensures forall i {:trigger DataWord(q, i)} :: 0 <= i && 4 * i + 8 <= n ==> DataWord(q, i) in mem
  {
    hide Ok, Backed;
    ChunkFacts(mem, lay, bins, lr, blocks, base, top, end, loose, p);
    TopFacts(mem, lay, bins, lr, blocks, base, top, end, loose);
    TopNotEmpty(mem, lay, bins, lr, blocks, base, top, end, loose, p);
    assert q % 8 == 0;
    WordsIn(mem, base, end, q, n);
  }

  lemma WordAligned(q: int, i: int)
    requires q % 8 == 0
    ensures DataWord(q, i) % 4 == 0
  {
    var k := q / 8;
    assert DataWord(q, i) == 4 * (2 * k + 2 + i);
  }

  lemma WordsIn(mem: Memory, base: int, end: int, q: int, n: int)
    requires Backed(mem, base, end) && base <= q && q + n < end && q % 8 == 0
    ensures forall i {:trigger DataWord(q, i)} :: 0 <= i && 4 * i + 8 <= n ==> DataWord(q, i) in mem
  {
    forall i | 0 <= i && 4 * i + 8 <= n ensures DataWord(q, i) in mem {
      WordAligned(q, i);
    }
  }

  /** Blocks in use do not overlap, so a copy between two of them reads what it should. */
  lemma LiveApart(lay: Layout, base: int, top: int, end: int, p: int, q: int)
    requires Tiling(lay, base, top, end) && Live(lay, p) && Live(lay, q) && p != q
    ensures p < q ==> Next(lay, p) <= q
    ensures q < p ==> Next(lay, q) <= p
  {
  }

  /** Live blocks are apart: copying from one up or down into a larger one is safe. */
  lemma CopyPlace(mem: Memory, lay: Layout, bins: seq<Bin>, lr: Bin, blocks: seq<bool>,
                  base: int, top: int, end: int, p: int, q: int)
    requires Ok(mem, lay, bins, lr, blocks, base, top, end, {}) && Aligned(lay)
    requires Live(lay, p) && Live(lay, q) && p != q && lay[p].size < lay[q].size
    ensures SizeField(mem, p) == lay[p].size && lay[p].size + 4 <= lay[q].size && lay[p].size >= MINSIZE && q != top
    ensures q < p || p + lay[p].size <= q
    ensures lay[p].size % 8 == 0
  {
    hide Ok, Aligned;
    LiveFacts(mem, lay, bins, lr, blocks, base, top, end, {}, p);
    LiveFacts(mem, lay, bins, lr, blocks, base, top, end, {}, q);
    TopFacts(mem, lay, bins, lr, blocks, base, top, end, {});
    SizeAligned(lay, p);
    SizeAligned(lay, q);
    LiveApart(lay, base, top, end, p, q);
  }

  lemma SameWordsTrans(mem: Memory, p: int, mem': Memory, q: int, mem'': Memory, r: int, n: int)
    requires SameWords(mem, p, mem', q, n) && SameWords(mem', q, mem'', r, n)
    ensures SameWords(mem, p, mem'', r, n)
  {
    forall i | 0 <= i && 4 * i + 8 <= n
      ensures DataWord(p, i) in mem && DataWord(r, i) in mem'' && mem''[DataWord(r, i)] == mem[DataWord(p, i)]
    {
      assert DataWord(q, i) in mem';
    }
  }

  /** A block that an operation keeps has its data words still. */
  lemma KeptWords(mem: Memory, lay: Layout, mem': Memory, lay': Layout, except: set<int>, p: int, n: int)
    requires KeepsLive(mem, lay, mem', lay', except) && Live(lay, p) && p !in except && n <= lay[p].size
    requires forall i {:trigger DataWord(p, i)} :: 0 <= i && 4 * i + 8 <= n ==> DataWord(p, i) in mem
    ensures SameWords(mem, p, mem', p, n)
  {
    forall i | 0 <= i && 4 * i + 8 <= n ensures DataWord(p, i) in mem' && mem'[DataWord(p, i)] == mem[DataWord(p, i)] {
      assert Payload(lay, p, DataWord(p, i));
    }
  }

  /** Block `p` of `nb` padded bytes asked for is now block `q`: its data has moved with it,
      and every other block in use is as it was. */
  ghost predicate Moved(mem: Memory, lay: Layout, p: int, nb: int, mem': Memory, lay': Layout, q: int)
    requires p in lay
  {
    && KeepsLive(mem, lay, mem', lay', {p}) && LiveSet(lay') == LiveSet(lay) - {p} + {q}
    && q in lay' && nb <= lay'[q].size < nb + MINSIZE && (q == p || q !in LiveSet(lay))
    && SameWords(mem, p, mem', q, if lay[p].size < nb then lay[p].size else nb)
  }

  /** Block `p` can become `nb` bytes with the chunk after it: into the top chunk only if some
      of that remains. */
  ghost predicate Forward(lay: Layout, top: int, end: int, lo: int, p: int, nb: int)
    requires p in lay
  {
    var next := Next(lay, p);
    if next == top then end - lo >= nb + MINSIZE else Free(lay, top, next) && Next(lay, next) - lo >= nb
  }

  /** Block `p` is large enough where it is, or can be made so. */
  ghost predicate Fits(lay: Layout, top: int, end: int, p: int, nb: int)
    requires p in lay
  {
    lay[p].size >= nb || Forward(lay, top, end, p, p, nb)
  }

  /** Block `p` can become `nb` bytes from the free chunk `lo` before it on. */
  ghost predicate Backward(lay: Layout, top: int, end: int, lo: int, p: int, nb: int)
    requires p in lay
  {
    Free(lay, top, lo) && Next(lay, lo) == p && (Next(lay, p) - lo >= nb || Forward(lay, top, end, lo, p, nb))
  }

  /** A PREV_INUSE bit that is set, or another chunk before. */
  lemma NotBefore(mem: Memory, lay: Layout, bins: seq<Bin>, lr: Bin, blocks: seq<bool>,
                  base: int, top: int, end: int, p: int, lo: int)
    requires Ok(mem, lay, bins, lr, blocks, base, top, end, {}) && p in lay && Free(lay, top, lo) && Next(lay, lo) == p
    ensures p + 4 in mem && mem[p + 4].Head? && !mem[p + 4].pinuse
  {
    FreeBit(mem, lay, bins, lr, blocks, base, top, end, {}, lo);
  }

  lemma OneBefore(lay: Layout, base: int, top: int, end: int, a: int, b: int)
    requires Tiling(lay, base, top, end) && a in lay && b in lay && a != top && b != top && Next(lay, a) == Next(lay, b)
    ensures a == b
  {
  }

  lemma AroundGathered(lay: Layout, loose: set<int>, lo: int, p: int, hi: int)
    requires AroundLive(lay, loose, lo, p, hi)
    ensures Gathered(lay, loose, {p}, lo, hi)
  {
  }

  lemma SameWordsRefl(mem: Memory, p: int, n: int)
    requires forall i {:trigger DataWord(p, i)} :: 0 <= i && 4 * i + 8 <= n ==> DataWord(p, i) in mem
    ensures SameWords(mem, p, mem, p, n)
  {
  }

  /** Words copied to the front of a block stay there while the block is cut to size. */
  lemma SameWordsKept(mem0: Memory, p: int, mem1: Memory, q: int, n: int, mem2: Memory, nb: int)
    requires SameWords(mem0, p, mem1, q, n) && n <= nb
    requires forall a :: a in mem1 && q + 8 <= a <= q + nb ==> a in mem2 && mem2[a] == mem1[a]
    ensures SameWords(mem0, p, mem2, q, n)
  {
    forall i | 0 <= i && 4 * i + 8 <= n
      ensures DataWord(p, i) in mem0 && DataWord(q, i) in mem2 && mem2[DataWord(q, i)] == mem0[DataWord(p, i)]
    {
      assert DataWord(q, i) in mem1;
    }
  }

  /** A free chunk before `p` starts outside every block in use. */
  lemma FreeNotLive(lay: Layout, top: int, q: int)
    requires Free(lay, top, q)
    ensures q !in LiveSet(lay) && q in lay
  {
  }

  /** The data words of a block in use are backed by memory. */
  lemma WordsBacked(mem: Memory, lay: Layout, bins: seq<Bin>, lr: Bin, blocks: seq<bool>,
                    base: int, top: int, end: int, loose: set<int>, p: int)
    requires Ok(mem, lay, bins, lr, blocks, base, top, end, loose) && Aligned(lay) && Backed(mem, base, end) && Live(lay, p)
    ensures forall i {:trigger DataWord(p, i)} :: 0 <= i && 4 * i + 8 <= lay[p].size ==> DataWord(p, i) in mem
  {
    hide Ok, Aligned, Backed;
    LiveFacts(mem, lay, bins, lr, blocks, base, top, end, loose, p);
    ChunkFacts(mem, lay, bins, lr, blocks, base, top, end, loose, p);
    DataBacked(mem, lay, bins, lr, blocks, base, top, end, loose, p, p, lay[p].size);
  }

  lemma TopNotEmpty(mem: Memory, lay: Layout, bins: seq<Bin>, lr: Bin, blocks: seq<bool>,
                    base: int, top: int, end: int, loose: set<int>, p: int)
    requires Ok(mem, lay, bins, lr, blocks, base, top, end, loose) && p in lay && p < top
    ensures top < end
  {
    assert base <= p && Next(lay, top) == end;
  }

  /** MALLOC_COPY moves all but SIZE_SZ bytes of a chunk: its size field stays behind. */
  function CopyCount(size: nat): (n: nat)
    requires size >= MINSIZE && size % 8 == 0
    ensures 4 * n + 4 == size
  {
    (size - 4) / 4
  }

  lemma SizeAligned(lay: Layout, p: int)
    requires Aligned(lay) && p in lay
    ensures lay[p].size % 8 == 0
  {
  }

  lemma CopyInside(mem: Memory, mem': Memory, lay: Layout, q: int, n: int)
    requires mem'.Keys == mem.Keys && q in lay && n + 4 <= lay[q].size
    requires forall a :: a in mem && !(q + 8 <= a < q + 4 + n) ==> mem'[a] == mem[a]
    requires lay[q].used
    ensures Inside(mem, mem', lay, q)
  {
  }

  lemma HeadAt(mem: Memory, lay: Layout, bins: seq<Bin>, lr: Bin, blocks: seq<bool>,
               base: int, top: int, end: int, loose: set<int>, p: int)
    requires Ok(mem, lay, bins, lr, blocks, base, top, end, loose) && p in lay
    ensures p + 4 in mem && mem[p + 4].Head?
  {
  }

  lemma KeepsLiveLess(mem: Memory, lay: Layout, mem': Memory, lay': Layout, except': set<int>, except: set<int>)
    requires KeepsLive(mem, lay, mem', lay', except') && except' <= except
    ensures KeepsLive(mem, lay, mem', lay', except)
  {
  }

  lemma KeptLive(mem: Memory, lay: Layout, mem': Memory, lay': Layout, except: set<int>, p: int)
    requires KeepsLive(mem, lay, mem', lay', except) && Live(lay, p) && p !in except
    ensures Live(lay', p) && lay'[p].size == lay[p].size
  {
  }

  lemma GatheredPair(lay: Layout, base: int, top: int, end: int, p: int, q: int)
    requires Tiling(lay, base, top, end) && Live(lay, p) && Live(lay, q) && q == Next(lay, p)
    ensures Gathered(lay, {}, {p, q}, p, Next(lay, q))
  {
    OnlyChunk(lay, base, top, end, p);
    OnlyChunk(lay, base, top, end, q);
  }
}
