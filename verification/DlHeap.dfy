/**
 malloc, free and realloc of lib/dlmalloc.c over an arena that MORECORE extends
 contiguously or not at all.  SIZE_SZ is 4, so chunks are 8-byte aligned and at least
 MINSIZE (16) bytes long.
 */
module DlHeap {
  import opened Basics
  import opened DlLayout
  import opened DlBins
  import opened DlScan
  import opened DlArena
  import opened DlSteps

  class Arena {
    var mem: Memory
    var bins: seq<Bin>
    var lastRemainder: Bin
    var blocks: seq<bool>
    var base: int
    var top: int
    var end: int
    ghost var lay: Layout
    const topPad: nat
    const page: nat

    ghost predicate OkBut(loose: set<int>)
      reads this
    {
      && Ok(mem, lay, bins, lastRemainder, blocks, base, top, end, loose)
      && Aligned(lay) && Backed(mem, base, end) && page > 0 && page % 8 == 0
    }

    ghost predicate Valid()
      reads this
    {
      OkBut({})
    }

    /** Before the first extension `top` has size zero and the bins are empty. */
    constructor (start: int, pad: nat, pageSize: nat)
      requires 0 <= start < LIMIT && start % 8 == 0 && pageSize > 0 && pageSize % 8 == 0
      ensures Valid() && LiveSet(lay) == {} && topPad == pad && page == pageSize
    {
      base, top, end := start, start, start;
      mem := map[start + 4 := Head(0, true)];
      bins, lastRemainder, blocks := seq(NAV, _ => []), [], seq(BLOCKS, _ => false);
      lay := map[start := Chunk(0, false)];
      topPad, page := pad, pageSize;
    }

    // ----- Lists -----

    method Unlink(p: int, ghost loose: set<int>)
      requires OkBut(loose) && Free(lay, top, p) && p !in loose
      modifies this`bins, this`lastRemainder
      ensures OkBut(loose + {p})
      ensures lastRemainder == if old(lastRemainder) == [p] then [] else old(lastRemainder)
    {
      if lastRemainder == [p] {
        UnlinkRemainder(lay, top, bins, lastRemainder, loose, p);
        lastRemainder := [];
      } else {
        assert p !in lastRemainder;
        UnlinkBin(lay, top, bins, lastRemainder, loose, p);
        assert Next(lay, p) > p;
        var i := BinIndex(SizeField(mem, p));
        bins := bins[i := Without(bins[i], p)];
      }
    }

    method Frontlink(p: int, ghost loose: set<int>)
      requires OkBut(loose) && p in loose
      modifies this`bins, this`blocks, this`mem
      ensures OkBut(loose - {p}) && KeepsLive(old(mem), lay, mem, lay, {})
    {
      assert Free(lay, top, p) && Next(lay, p) > p;
      assert forall q :: Free(lay, top, q) ==> SizeField(mem, q) == SizeAt(lay, q);
      hide Tiling, Consolidated, Tags, KeepsLive, Aligned, Backed;
      var s := SizeField(mem, p);
      var i, k := 0, 0;
      if s < 512 {
        i := s / 8;
        blocks := blocks[i / 4 := true];
        SmallFront(lay, top, bins, lastRemainder, loose, p);
      } else {
        i := BinIndex(s);
        if bins[i] == [] {
          blocks := blocks[i / 4 := true];
        }
        k := FrontPlace(lay, mem, bins[i], s);
      }
      FrontlinkBin(lay, top, bins, lastRemainder, loose, p, k);
      bins := bins[i := bins[i][..k] + [p] + bins[i][k..]];
      WriteLinks(p, loose - {p});
    }

    /** The fd and bk words of a list member. */
    method WriteLinks(p: int, ghost loose: set<int>)
      requires OkBut(loose) && Free(lay, top, p)
      modifies this`mem
      ensures OkBut(loose) && KeepsLive(old(mem), lay, mem, lay, {})
    {
      assert Next(lay, p) >= p + 16;
      ghost var mem0 := mem;
      mem := mem[p + 8 := Link][p + 12 := Link];
      InsideWrite(mem0, mem, lay, bins, lastRemainder, blocks, base, top, end, loose, p);
    }

    method LinkLastRemainder(p: int, ghost loose: set<int>)
      requires OkBut(loose) && p in loose && lastRemainder == []
      modifies this`lastRemainder, this`mem
      ensures OkBut(loose - {p}) && KeepsLive(old(mem), lay, mem, lay, {})
    {
      LinkRemainder(lay, top, bins, loose, p);
      lastRemainder := [p];
      WriteLinks(p, loose - {p});
    }

    // ----- Dividing chunks -----

    /** set_inuse_bit_at_offset: hand out a whole free chunk. */
    method TakeFree(p: int, ghost loose: set<int>)
      requires OkBut(loose) && p in loose && p in lay
      modifies this`mem, this`lay
      ensures OkBut(loose - {p}) && KeepsLive(old(mem), old(lay), mem, lay, {})
      ensures LiveSet(lay) == old(LiveSet(lay)) + {p} && lay[p].size == old(lay[p].size)
    {
      hide Ok, KeepsLive;
      TakeFreeStep(mem, lay, bins, lastRemainder, blocks, base, top, end, p, loose);
      var n := p + SizeField(mem, p);
      mem := mem[n + 4 := Head(SizeField(mem, n), true)];
      lay := Replace(lay, p, n, One(p, n, true));
    }

    /** Hand out the front of a free chunk; the rest stays free. */
    method SplitFree(p: int, nb: int, ghost loose: set<int>) returns (r: int)
      requires OkBut(loose) && p in loose && p in lay && nb >= MINSIZE && nb % 8 == 0 && lay[p].size >= nb + MINSIZE
      modifies this`mem, this`lay
      ensures r == p + nb && OkBut(loose - {p} + {r}) && r !in loose && KeepsLive(old(mem), old(lay), mem, lay, {})
      ensures LiveSet(lay) == old(LiveSet(lay)) + {p} && lay[p].size == nb
    {
      hide Ok, KeepsLive;
      SplitFreeStep(mem, lay, bins, lastRemainder, blocks, base, top, end, p, nb, loose);
      var n := p + SizeField(mem, p);
      r := p + nb;
      mem := mem[p + 4 := Head(nb, true)][r + 4 := Head(n - r, true)][n := Foot(n - r)];
      lay := Replace(lay, p, n, Two(p, r, n, false));
    }

    /** Hand out the front of the top chunk. */
    method SplitTop(nb: int) returns (p: int)
      requires Valid() && top in lay && nb >= MINSIZE && nb % 8 == 0 && lay[top].size >= nb + MINSIZE
      modifies this`mem, this`lay, this`top
      ensures p == old(top) && Valid() && KeepsLive(old(mem), old(lay), mem, lay, {})
      ensures LiveSet(lay) == old(LiveSet(lay)) + {p} && lay[p].size == nb
    {
      hide Ok, KeepsLive;
      SplitTopStep(mem, lay, bins, lastRemainder, blocks, base, top, end, nb);
      p := top;
      mem := mem[p + 4 := Head(nb, true)][p + nb + 4 := Head(SizeField(mem, p) - nb, true)];
      lay := Replace(lay, p, end, Two(p, p + nb, end, false));
      top := p + nb;
    }

    // ----- malloc -----

    /** Step 1: a chunk of the bin for this size that needs no splitting.  Otherwise, where
        the search has to go on. */
    method ExactFit(nb: nat) returns (r: Option<int>, idx: nat)
      requires Valid() && nb % 8 == 0 && MINSIZE <= nb < LIMIT
      ensures r.Some? ==> Free(lay, top, r.value) && r.value !in lastRemainder && nb <= lay[r.value].size < nb + MINSIZE
      ensures r.Some? ==> BestOfBins(lay, top, lastRemainder, nb, r.value)
      ensures r.None? ==> ScanFrom(lay, bins, idx, nb)
    {
      if nb < 504 {
        idx := nb / 8;
        r := SmallFit(lay, top, bins, lastRemainder, nb);
        if r.None? {
          SmallBelow(lay, top, bins, lastRemainder, nb);
          idx := idx + 2;
        }
      } else {
        idx := BinIndex(nb);
        SearchableBins(mem, lay, bins, lastRemainder, blocks, base, top, end, {});
        var k := FindInBin(lay, mem, bins[idx], nb);
        BinsBelow(lay, top, bins, lastRemainder, nb);
        if k < 0 {
          assert Below(lay, bins, idx + 1, nb);
          return None, idx + 1;
        }
        assert bins[idx][k] in bins[idx];
        if SizeField(mem, bins[idx][k]) < nb + MINSIZE {
          FirstIsBest(lay, mem, bins, idx, nb, idx, k);
          BinnedBest(lay, top, bins, lastRemainder, nb, idx, idx, k);
          return Some(bins[idx][k]), idx;
        }
        r := None;
      }
    }

    /** A listed chunk as it is handed out: split if the rest is worth keeping, which then
        becomes the last remainder. */
    method HandOut(v: int, nb: nat)
      requires OkBut({v}) && v in lay && lastRemainder == [] && nb % 8 == 0 && MINSIZE <= nb <= lay[v].size
      modifies this`mem, this`lay, this`lastRemainder
      ensures Valid() && KeepsLive(old(mem), old(lay), mem, lay, {})
      ensures LiveSet(lay) == old(LiveSet(lay)) + {v} && v in lay && nb <= lay[v].size < nb + MINSIZE
    {
      hide Ok, KeepsLive, Aligned, Backed;
      LooseFree(mem, lay, bins, lastRemainder, blocks, base, top, end, {v}, v);
      ChunkFacts(mem, lay, bins, lastRemainder, blocks, base, top, end, {v}, v);
      ghost var mem0, lay0 := mem, lay;
      if SizeField(mem, v) - nb >= MINSIZE {
        var rest := SplitFree(v, nb, {v});
        assert {v} - {v} + {rest} == {rest} && {rest} - {rest} == {};
        ghost var mem1 := mem;
        LinkLastRemainder(rest, {rest});
        KeepsLiveTrans(mem0, lay0, mem1, lay, mem, lay, {}, {});
      } else {
        TakeFree(v, {v});
        assert {v} - {v} == {};
      }
    }

    /** Step 2: the remainder of the last split, or else put it into its bin. */
    method UseRemainder(nb: nat) returns (r: Option<int>)
      requires Valid() && nb % 8 == 0 && MINSIZE <= nb
      modifies this`mem, this`lay, this`lastRemainder, this`bins, this`blocks
      ensures Valid() && KeepsLive(old(mem), old(lay), mem, lay, {})
      ensures r.Some? ==> old(lastRemainder) == [r.value] && old(Free(lay, top, r.value))
      ensures r.Some? ==> LiveSet(lay) == old(LiveSet(lay)) + {r.value} && r.value in lay && nb <= lay[r.value].size < nb + MINSIZE
      ensures r.None? ==> lastRemainder == [] && lay == old(lay) && forall p :: p in old(lastRemainder) ==> SizeAt(lay, p) < nb
    {
      KeepsLiveRefl(mem, lay);
      if lastRemainder == [] {
        return None;
      }
      var v := lastRemainder[0];
      RemainderFacts(mem, lay, bins, lastRemainder, blocks, base, top, end);
      hide Ok, KeepsLive, Aligned, Backed;
      var size := SizeField(mem, v);
      Unlink(v, {});
      assert {} + {v} == {v};
      if size >= nb {
        HandOut(v, nb);
        return Some(v);
      }
      Frontlink(v, {v});
      assert {v} - {v} == {};
      r := None;
    }

    /** malloc_extend_top, with MORECORE granting the space right after the arena or not. */
    method ExtendTop(nb: nat, grant: bool)
      requires Valid() && top in lay
      modifies this`mem, this`lay, this`end
      ensures Valid() && KeepsLive(old(mem), old(lay), mem, lay, {}) && LiveSet(lay) == old(LiveSet(lay)) && top in lay
      ensures var more := SbrkSize(nb, topPad, page);
        if grant && old(end) + more <= LIMIT then lay[top].size >= nb + MINSIZE else lay == old(lay)
    {
      hide Ok, KeepsLive, Aligned, Backed, SbrkSize, LiveSet;
      KeepsLiveRefl(mem, lay);
      var more := SbrkSize(nb, topPad, page);
      if !grant || end + more > LIMIT {
        return;
      }
      TopFacts(mem, lay, bins, lastRemainder, blocks, base, top, end, {});
      TopSize(lay, base, top, end);
      SbrkAligned(nb, topPad, page);
      ExtendFrame(mem, lay, base, top, end, more);
      ExtendStep(mem, lay, bins, lastRemainder, blocks, base, top, end, more);
      mem := (NewWords(end, end + more) + mem)[top + 4 := Head(SizeField(mem, top) + more, true)];
      lay := lay[top := Chunk(lay[top].size + more, false)];
      end := end + more;
    }

    /** Step 3: best fit among the remaining bins. */
    method ScanFit(nb: nat, idx: nat) returns (r: Option<int>)
      requires Valid() && lastRemainder == [] && nb % 8 == 0 && MINSIZE <= nb && ScanFrom(lay, bins, idx, nb)
      requires FitsFrom(lay, bins, idx, nb)
      modifies this`mem, this`lay, this`lastRemainder, this`bins, this`blocks
      ensures Valid() && KeepsLive(old(mem), old(lay), mem, lay, {})
      ensures r.Some? ==> old(Free(lay, top, r.value)) && old(BestOfBins(lay, top, [], nb, r.value))
      ensures r.Some? ==> LiveSet(lay) == old(LiveSet(lay)) + {r.value} && r.value in lay && nb <= lay[r.value].size < nb + MINSIZE
      ensures r.None? ==> lay == old(lay) && NoneFits(lay, top, nb)
    {
      KeepsLiveRefl(mem, lay);
      SearchableBins(mem, lay, bins, lastRemainder, blocks, base, top, end, {});
      var found, marks := Scan(lay, mem, bins, blocks, nb, idx);
      blocks := marks;
      if found.None? {
        NothingFits(lay, top, bins, idx, nb);
        return None;
      }
      var (i, k) := found.value;
      var v := bins[i][k];
      BinnedBest(lay, top, bins, lastRemainder, nb, idx, i, k);
      assert lay[v].size >= nb;
      hide Ok, KeepsLive, Aligned, Backed;
      Unlink(v, {});
      assert {} + {v} == {v};
      HandOut(v, nb);
      r := Some(v);
    }

    /**
     mALLOc: the chunk handed out, if any.  It was not in use, it is large enough for the
     padded request and less than MINSIZE larger; nothing in use is disturbed.  A chunk from
     the bins is a best fit, and the top chunk is used only if no free chunk fits.
     */
    method Malloc(bytes: nat, grant: bool) returns (r: Option<int>)
      requires Valid() && bytes < 0x1_0000_0000
      modifies this
      ensures Valid() && KeepsLive(old(mem), old(lay), mem, lay, {})
      ensures r.None? ==> LiveSet(lay) == old(LiveSet(lay))
      ensures r.None? ==> !grant || old(end) + SbrkSize(Request2Size(bytes), topPad, page) > LIMIT
      ensures r.Some? ==> LiveSet(lay) == old(LiveSet(lay)) + {r.value} && r.value !in old(LiveSet(lay)) && r.value in lay
      ensures r.Some? ==> r.value % 8 == 0 && Request2Size(bytes) <= lay[r.value].size < Request2Size(bytes) + MINSIZE
      ensures r.Some? && r.value != old(top) ==> old(Free(lay, top, r.value))
      ensures r.Some? && r.value != old(top) && old(lastRemainder) != [r.value] ==>
                old(BestOfBins(lay, top, lastRemainder, Request2Size(bytes), r.value))
      ensures r.None? || r.value == old(top) ==> old(NoneFits(lay, top, Request2Size(bytes)))
    {
      var nb := Request2Size(bytes);
      var v, idx := ExactFit(nb);
      if v.Some? {
        Unlink(v.value, {});
        assert {} + {v.value} == {v.value} && {v.value} - {v.value} == {};
        hide Ok, KeepsLive;
        TakeFree(v.value, {v.value});
        return v;
      }
      r := MallocRest(nb, idx, grant);
    }

    /** Steps 2, 3, 4 and 6. */
    method MallocRest(nb: nat, idx: nat, grant: bool) returns (r: Option<int>)
      requires Valid() && nb % 8 == 0 && MINSIZE <= nb < LIMIT && ScanFrom(lay, bins, idx, nb)
      modifies this
      ensures Valid() && KeepsLive(old(mem), old(lay), mem, lay, {})
      ensures r.None? ==> LiveSet(lay) == old(LiveSet(lay)) && (!grant || old(end) + SbrkSize(nb, topPad, page) > LIMIT)
      ensures r.Some? ==> LiveSet(lay) == old(LiveSet(lay)) + {r.value} && r.value !in old(LiveSet(lay)) && r.value in lay
      ensures r.Some? ==> nb <= lay[r.value].size < nb + MINSIZE
      ensures r.Some? && r.value != old(top) ==> old(Free(lay, top, r.value))
      ensures r.Some? && r.value != old(top) && old(lastRemainder) != [r.value] ==>
                old(BestOfBins(lay, top, lastRemainder, nb, r.value))
      ensures r.None? || r.value == old(top) ==> old(NoneFits(lay, top, nb))
    {
      ghost var mem0, lay0, bins0, lr0 := mem, lay, bins, lastRemainder;
      r := UseRemainder(nb);
      if r.Some? {
        return;
      }
      StillScanFrom(lay, top, bins0, lr0, bins, idx, nb);
      ghost var mem1 := mem;
      r := ScanFit(nb, idx);
      KeepsLiveTrans(mem0, lay0, mem1, lay0, mem, lay, {}, {});
      if r.Some? {
        BestBefore(lay0, top, lr0, nb, r.value);
        return;
      }
      r := MallocTop(nb, grant, mem0, lay0);
    }

    /** Steps 4 and 6: the top chunk, extended if need be. */
    method MallocTop(nb: nat, grant: bool, ghost mem0: Memory, ghost lay0: Layout) returns (r: Option<int>)
      requires Valid() && nb % 8 == 0 && MINSIZE <= nb < LIMIT && lay == lay0 && KeepsLive(mem0, lay0, mem, lay, {})
      modifies this
      ensures Valid() && KeepsLive(mem0, lay0, mem, lay, {})
      ensures r.None? ==> LiveSet(lay) == old(LiveSet(lay)) && (!grant || old(end) + SbrkSize(nb, topPad, page) > LIMIT)
      ensures r.Some? ==> r.value == old(top) && LiveSet(lay) == old(LiveSet(lay)) + {r.value} && r.value !in old(LiveSet(lay))
      ensures r.Some? ==> r.value in lay && lay[r.value].size == nb
    {
      hide Ok, KeepsLive, Aligned, Backed;
      TopFacts(mem, lay, bins, lastRemainder, blocks, base, top, end, {});
      ghost var mem1, lay1 := mem, lay;
      if SizeField(mem, top) - nb < MINSIZE {
        ExtendTop(nb, grant);
        KeepsLiveTrans(mem0, lay0, mem1, lay1, mem, lay, {}, {});
        TopFacts(mem, lay, bins, lastRemainder, blocks, base, top, end, {});
        if SizeField(mem, top) - nb < MINSIZE {
          return None;
        }
      }
      ghost var mem2, lay2 := mem, lay;
      var p := SplitTop(nb);
      KeepsLiveTrans(mem0, lay0, mem2, lay2, mem, lay, {}, {});
      r := Some(p);
    }

    // ----- free -----

    /** Take the free chunk before `p` off its list, if there is one. */
    method UnlinkBefore(p: int) returns (lo: int, wasRemainder: bool, ghost loose: set<int>)
      requires Valid() && Live(lay, p)
      modifies this`bins, this`lastRemainder
      ensures OkBut(loose) && loose == if lo == p then {} else {lo}
      ensures lo == p || (lo < p && Free(lay, top, lo) && Next(lay, lo) == p)
      ensures lo + 4 in mem && mem[lo + 4] == Head(lay[lo].size, true)
      ensures wasRemainder <==> lo != p && old(lastRemainder) == [lo]
      ensures lastRemainder == if wasRemainder then [] else old(lastRemainder)
    {
      hide Ok, KeepsLive, Aligned, Backed;
      LiveFacts(mem, lay, bins, lastRemainder, blocks, base, top, end, {}, p);
      lo, wasRemainder, loose := p, false, {};
      if !mem[p + 4].pinuse {
        FreeBefore(mem, lay, bins, lastRemainder, blocks, base, top, end, {}, p);
        lo := p - mem[p].size;
        wasRemainder := lastRemainder == [lo];
        Unlink(lo, {});
        assert {} + {lo} == {lo};
        loose := {lo};
      }
    }

    /** fREe. */
    method Release(p: int)
      requires Valid() && Live(lay, p)
      modifies this
      ensures Valid() && KeepsLive(old(mem), old(lay), mem, lay, {p}) && LiveSet(lay) == old(LiveSet(lay)) - {p}
    {
      hide Ok, KeepsLive, Aligned, Backed;
      LiveFacts(mem, lay, bins, lastRemainder, blocks, base, top, end, {}, p);
      var next := p + SizeField(mem, p);
      if next == top {
        FreeIntoTop(p);
      } else {
        FreeIntoList(p, next);
      }
    }

    /** The chunk borders the top chunk. */
    method FreeIntoTop(p: int)
      requires Valid() && Live(lay, p) && Next(lay, p) == top
      modifies this
      ensures Valid() && KeepsLive(old(mem), old(lay), mem, lay, {p}) && LiveSet(lay) == old(LiveSet(lay)) - {p}
    {
      hide Ok, KeepsLive, Aligned, Backed;
      var lo, islr, loose := UnlinkBefore(p);
      LiveFacts(mem, lay, bins, lastRemainder, blocks, base, top, end, loose, p);
      TopFacts(mem, lay, bins, lastRemainder, blocks, base, top, end, loose);
      Around(mem, lay, bins, lastRemainder, blocks, base, top, end, loose, lo, p, top);
      FreeTopStep(mem, lay, bins, lastRemainder, blocks, base, top, end, loose, lo, p);
      BackedMore(mem, mem[lo + 4 := Head(end - lo, true)], base, end);
      mem := mem[lo + 4 := Head(end - lo, true)];
      lay := Replace(lay, lo, end, One(lo, end, false));
      top := lo;
    }

    /** The consolidated chunk goes to its bin or stays the last remainder. */
    method FreeIntoList(p: int, next: int)
      requires Valid() && Live(lay, p) && next == Next(lay, p) && next != top && next in lay
      modifies this
      ensures Valid() && KeepsLive(old(mem), old(lay), mem, lay, {p}) && LiveSet(lay) == old(LiveSet(lay)) - {p}
    {
      hide Ok, KeepsLive, Aligned, Backed;
      var lo, islr, loose := UnlinkBefore(p);
      LiveFacts(mem, lay, bins, lastRemainder, blocks, base, top, end, loose, p);
      FreeBit(mem, lay, bins, lastRemainder, blocks, base, top, end, loose, next);
      var hi := next;
      if !mem[next + SizeField(mem, next) + 4].pinuse {
        hi := next + SizeField(mem, next);
        if !islr && lastRemainder == [next] {
          islr := true;
        }
        Unlink(next, loose);
        loose := loose + {next};
      }
      assert islr ==> lastRemainder == [];
      Around(mem, lay, bins, lastRemainder, blocks, base, top, end, loose, lo, p, hi);
      FreeStep(mem, lay, bins, lastRemainder, blocks, base, top, end, loose, lo, p, hi);
      ghost var mem0, lay0 := mem, lay;
      mem := mem[hi + 4 := Head(SizeField(mem, hi), false)][lo + 4 := Head(hi - lo, true)][hi := Foot(hi - lo)];
      lay := Replace(lay, lo, hi, One(lo, hi, false));
      BackedMore(mem0, mem, base, end);
      ghost var mem1 := mem;
      assert {lo} - {lo} == {};
      if islr {
        LinkLastRemainder(lo, {lo});
      } else {
        Frontlink(lo, {lo});
      }
      KeepsLiveTrans(mem0, lay0, mem1, lay, mem, lay, {p}, {});
    }

    // ----- realloc -----

    /** MALLOC_COPY of `count` words from the data of chunk `p` to that of `q`, ascending. */
    method CopyData(q: int, p: int, count: nat)
      requires q < p || p + 4 * count <= q
      requires forall i {:trigger DataWord(p, i)} :: 0 <= i < count ==> DataWord(p, i) in mem
      requires forall i {:trigger DataWord(q, i)} :: 0 <= i < count ==> DataWord(q, i) in mem
      modifies this`mem
      ensures mem.Keys == old(mem).Keys
      ensures SameWords(old(mem), p, mem, q, 4 * count + 4)
      ensures forall a :: a in old(mem) && !(q + 8 <= a < q + 8 + 4 * count) ==> mem[a] == old(mem)[a]
    {
      var i := 0;
      while i < count
        invariant i <= count && mem.Keys == old(mem).Keys
        invariant forall j {:trigger DataWord(q, j)} :: 0 <= j < i ==> mem[DataWord(q, j)] == old(mem)[DataWord(p, j)]
        invariant forall j {:trigger DataWord(p, j)} :: i <= j < count ==> mem[DataWord(p, j)] == old(mem)[DataWord(p, j)]
        invariant forall a :: a in old(mem) && !(q + 8 <= a < q + 8 + 4 * count) ==> mem[a] == old(mem)[a]
      {
        assert DataWord(q, i) in mem;
        mem := mem[DataWord(q, i) := mem[DataWord(p, i)]];
        i := i + 1;
      }
      forall i | 0 <= i && 4 * i + 8 <= 4 * count + 4
        ensures DataWord(p, i) in old(mem) && DataWord(q, i) in mem && mem[DataWord(q, i)] == old(mem)[DataWord(p, i)]
      {
        assert i < count;
      }
    }

    /** The `split` label: make the gathered region [lo, hi) one block of `nb` bytes and free
        what is left over.  `mem0` is the memory before data was moved. */
    method Split(lo: int, hi: int, nb: nat, ghost mem0: Memory, ghost loose: set<int>, ghost out: set<int>)
      requires Ok(mem0, lay, bins, lastRemainder, blocks, base, top, end, loose)
      requires Aligned(lay) && Backed(mem, base, end) && page > 0 && page % 8 == 0
      requires Gathered(lay, loose, out, lo, hi) && hi in lay && MINSIZE <= nb <= hi - lo && nb % 8 == 0
      requires TagsIntact(mem0, mem, lo, hi) && hi + 4 in mem0 && mem0[hi + 4].Head?
      modifies this
      ensures Valid() && KeepsLive(mem0, old(lay), mem, lay, out) && LiveSet(lay) == old(LiveSet(lay)) - out + {lo}
      ensures lo in lay && nb <= lay[lo].size < nb + MINSIZE
      ensures forall a :: a in old(mem) && lo + 8 <= a <= lo + nb ==> a in mem && mem[a] == old(mem)[a]
    {
      hide Ok, KeepsLive, Aligned, Backed;
      ghost var mem1, lay1 := mem, lay;
      if hi - lo - nb >= MINSIZE {
        var mid := lo + nb;
        GatherTwo(mem0, mem, lay, bins, lastRemainder, blocks, base, top, end, loose, out, lo, mid, hi);
        mem := mem[lo + 4 := Head(nb, mem[lo + 4].pinuse)][mid + 4 := Head(hi - mid, true)][hi + 4 := Head(SizeField(mem, hi), true)];
        lay := Replace(lay, lo, hi, Two(lo, mid, hi, true));
        BackedMore(mem1, mem, base, end);
        ghost var mem2, lay2 := mem, lay;
        assert mid in LiveSet(lay) && lo in LiveSet(lay);
        Release(mid);
        KeepsLiveTrans(mem0, lay1, mem2, lay2, mem, lay, out, {mid});
        SplitKeeps(mem1, mem2, lay2, mem, lay, lo, mid, nb);
        assert LiveSet(lay1) - out + {lo, mid} - {mid} == LiveSet(lay1) - out + {lo};
      } else {
        GatherOne(mem0, mem, lay, bins, lastRemainder, blocks, base, top, end, loose, out, lo, hi);
        mem := mem[lo + 4 := Head(hi - lo, mem[lo + 4].pinuse)][hi + 4 := Head(SizeField(mem, hi), true)];
        lay := Replace(lay, lo, hi, One(lo, hi, true));
        BackedMore(mem1, mem, base, end);
      }
    }

    /** Make the gathered end of the arena one block of `nb` bytes and a new top chunk. */
    method SplitOffTop(lo: int, p: int, nb: nat, ghost mem0: Memory, ghost loose: set<int>)
      requires Ok(mem0, lay, bins, lastRemainder, blocks, base, top, end, loose)
      requires Aligned(lay) && Backed(mem, base, end) && page > 0 && page % 8 == 0
      requires Gathered(lay, loose, {p}, lo, top) && top in lay && nb >= MINSIZE && nb % 8 == 0 && end - lo >= nb + MINSIZE
      requires TagsIntact(mem0, mem, lo, end)
      modifies this
      ensures Valid() && KeepsLive(mem0, old(lay), mem, lay, {p}) && LiveSet(lay) == old(LiveSet(lay)) - {p} + {lo}
      ensures lo in lay && nb <= lay[lo].size < nb + MINSIZE
      ensures forall a :: a in old(mem) && lo + 8 <= a <= lo + nb ==> a in mem && mem[a] == old(mem)[a]
    {
      hide Ok, KeepsLive, Aligned, Backed;
      TopFacts(mem0, lay, bins, lastRemainder, blocks, base, top, end, loose);
      TopNotEmpty(mem0, lay, bins, lastRemainder, blocks, base, top, end, loose, lo);
      ghost var mem1 := mem;
      GatherTop(mem0, mem, lay, bins, lastRemainder, blocks, base, top, end, loose, p, lo, lo + nb);
      mem := mem[lo + nb + 4 := Head(end - (lo + nb), true)][lo + 4 := Head(nb, mem[lo + 4].pinuse)];
      lay := Replace(lay, lo, end, Two(lo, lo + nb, end, false));
      top := lo + nb;
      BackedMore(mem1, mem, base, end);
    }

    /** Expanding forward, into the top chunk or a free chunk. */
    method GrowForward(p: int, nb: nat) returns (done: bool)
      requires Valid() && Live(lay, p) && lay[p].size < nb && nb % 8 == 0 && MINSIZE <= nb
      modifies this
      ensures Valid()
      ensures if done then Moved(old(mem), old(lay), p, nb, mem, lay, p) else unchanged(this)
      ensures done <==> old(Forward(lay, top, end, p, p, nb))
    {
      hide Ok, KeepsLive, Aligned, Backed;
      var size := SizeField(mem, p);
      var next := p + size;
      ghost var mem0, lay0 := mem, lay;
      LiveFacts(mem, lay, bins, lastRemainder, blocks, base, top, end, {}, p);
      TopFacts(mem, lay, bins, lastRemainder, blocks, base, top, end, {});
      WordsBacked(mem, lay, bins, lastRemainder, blocks, base, top, end, {}, p);
      SameWordsRefl(mem, p, size);
      if next == top {
        if SizeField(mem, top) + size < nb + MINSIZE {
          return false;
        }
        Around(mem, lay, bins, lastRemainder, blocks, base, top, end, {}, p, p, top);
        AroundGathered(lay, {}, p, p, top);
        SplitOffTop(p, p, nb, mem, {});
      } else {
        FreeBit(mem, lay, bins, lastRemainder, blocks, base, top, end, {}, next);
        var hi := next + SizeField(mem, next);
        if mem[hi + 4].pinuse || hi - p < nb {
          return false;
        }
        Unlink(next, {});
        assert {} + {next} == {next};
        Around(mem, lay, bins, lastRemainder, blocks, base, top, end, {next}, p, p, hi);
        AroundGathered(lay, {next}, p, p, hi);
        Split(p, hi, nb, mem, {next}, {p});
      }
      SameWordsKept(mem0, p, mem0, p, size, mem, nb);
      done := true;
    }

    /** Copy the data of `p` down to the free chunk `lo` before it, now off its list. */
    method ShiftDown(lo: int, p: int, ghost loose: set<int>)
      requires OkBut(loose) && Live(lay, p) && Free(lay, top, lo) && Next(lay, lo) == p
      modifies this`mem
      ensures Backed(mem, base, end) && mem.Keys == old(mem).Keys && SameWords(old(mem), p, mem, lo, lay[p].size)
      ensures forall hi :: hi >= Next(lay, p) ==> TagsIntact(old(mem), mem, lo, hi)
    {
      hide Ok, KeepsLive, Backed, Aligned;
      ghost var mem0 := mem;
      LiveFacts(mem, lay, bins, lastRemainder, blocks, base, top, end, loose, p);
      ChunkFacts(mem, lay, bins, lastRemainder, blocks, base, top, end, loose, lo);
      WordsBacked(mem, lay, bins, lastRemainder, blocks, base, top, end, loose, p);
      DataBacked(mem, lay, bins, lastRemainder, blocks, base, top, end, loose, p, lo, lay[p].size);
      SizeAligned(lay, p);
      CopyData(lo, p, CopyCount(SizeField(mem, p)));
      BackedMore(mem0, mem, base, end);
    }

    /** Shifting backwards, with the top chunk or the free chunk after `p` if that helps. */
    method GrowBackward(p: int, nb: nat) returns (r: Option<int>)
      requires Valid() && Live(lay, p) && lay[p].size < nb && nb % 8 == 0 && MINSIZE <= nb
      modifies this
      ensures Valid()
      ensures if r.Some? then Moved(old(mem), old(lay), p, nb, mem, lay, r.value) else unchanged(this)
      ensures forall lo :: old(Backward(lay, top, end, lo, p, nb)) <==> r == Some(lo)
    {
      hide Ok, KeepsLive, Aligned, Backed;
      var size := SizeField(mem, p);
      var next := p + size;
      LiveFacts(mem, lay, bins, lastRemainder, blocks, base, top, end, {}, p);
      if mem[p + 4].pinuse {
        forall q | Free(lay, top, q) && Next(lay, q) == p ensures false {
          NotBefore(mem, lay, bins, lastRemainder, blocks, base, top, end, p, q);
        }
        return None;
      }
      FreeBefore(mem, lay, bins, lastRemainder, blocks, base, top, end, {}, p);
      var lo := p - mem[p].size;
      FreeNotLive(lay, top, lo);
      TopFacts(mem, lay, bins, lastRemainder, blocks, base, top, end, {});
      forall q | Free(lay, top, q) && Next(lay, q) == p ensures q == lo {
        OneBefore(lay, base, top, end, q, lo);
      }
      if next == top {
        if SizeField(mem, top) + (next - lo) >= nb + MINSIZE {
          BackwardIntoTop(lo, p, nb);
          return Some(lo);
        }
      } else {
        FreeBit(mem, lay, bins, lastRemainder, blocks, base, top, end, {}, next);
        var hi := next + SizeField(mem, next);
        if !mem[hi + 4].pinuse && hi - lo >= nb {
          Unlink(next, {});
          assert {} + {next} == {next};
          BackwardSplit(lo, p, hi, nb, {next});
          return Some(lo);
        }
      }
      if next - lo >= nb {
        BackwardSplit(lo, p, next, nb, {});
        return Some(lo);
      }
      r := None;
    }

    method BackwardIntoTop(lo: int, p: int, nb: nat)
      requires Valid() && Live(lay, p) && lay[p].size < nb && nb % 8 == 0 && MINSIZE <= nb && Next(lay, p) == top
      requires Free(lay, top, lo) && Next(lay, lo) == p && end - lo >= nb + MINSIZE
      modifies this
      ensures Valid() && Moved(old(mem), old(lay), p, nb, mem, lay, lo)
    {
      hide Ok, KeepsLive, Aligned, Backed;
      ghost var mem0, lay0 := mem, lay;
      FreeNotLive(lay, top, lo);
      Unlink(lo, {});
      assert {} + {lo} == {lo};
      LiveFacts(mem, lay, bins, lastRemainder, blocks, base, top, end, {lo}, p);
      TopFacts(mem, lay, bins, lastRemainder, blocks, base, top, end, {lo});
      Around(mem, lay, bins, lastRemainder, blocks, base, top, end, {lo}, lo, p, top);
      AroundGathered(lay, {lo}, lo, p, top);
      ShiftDown(lo, p, {lo});
      ghost var mem1 := mem;
      SplitOffTop(lo, p, nb, mem0, {lo});
      SameWordsKept(mem0, p, mem1, lo, lay0[p].size, mem, nb);
    }

    /** Unlink the chunk before, copy down and go to `split`. */
    method BackwardSplit(lo: int, p: int, hi: int, nb: nat, ghost after: set<int>)
      requires OkBut(after) && Live(lay, p) && lay[p].size < nb && nb % 8 == 0 && MINSIZE <= nb <= hi - lo
      requires Free(lay, top, lo) && Next(lay, lo) == p && hi in lay
      requires if hi == Next(lay, p) then after == {} else
                 Next(lay, p) in lay && after == {Next(lay, p)} && hi == Next(lay, Next(lay, p))
      modifies this
      ensures Valid() && Moved(old(mem), old(lay), p, nb, mem, lay, lo)
    {
      hide Ok, KeepsLive, Aligned, Backed;
      ghost var mem0, lay0 := mem, lay;
      FreeNotLive(lay, top, lo);
      LiveFacts(mem, lay, bins, lastRemainder, blocks, base, top, end, after, p);
      Unlink(lo, after);
      ghost var loose := after + {lo};
      Around(mem, lay, bins, lastRemainder, blocks, base, top, end, loose, lo, p, hi);
      AroundGathered(lay, loose, lo, p, hi);
      ShiftDown(lo, p, loose);
      ghost var mem1 := mem;
      HeadAt(mem0, lay, bins, lastRemainder, blocks, base, top, end, loose, hi);
      Split(lo, hi, nb, mem0, loose, {p});
      SameWordsKept(mem0, p, mem1, lo, lay0[p].size, mem, nb);
    }

    /** A new block, merged with the old one if it comes right after it, else a copy. */
    method MoveToNew(p: int, bytes: nat, grant: bool) returns (r: Option<int>)
      requires Valid() && Live(lay, p) && bytes < 0x1_0000_0000 && lay[p].size < Request2Size(bytes)
      modifies this
      ensures Valid()
      ensures if r.Some? then Moved(old(mem), old(lay), p, Request2Size(bytes), mem, lay, r.value)
              else LiveSet(lay) == old(LiveSet(lay)) && KeepsLive(old(mem), old(lay), mem, lay, {})
      ensures r.None? ==> !grant || old(end) + SbrkSize(Request2Size(bytes), topPad, page) > LIMIT
      ensures r.None? ==> old(NoneFits(lay, top, Request2Size(bytes)))
    {
      hide Ok, KeepsLive, Aligned, Backed;
      ghost var mem0, lay0 := mem, lay;
      LiveFacts(mem, lay, bins, lastRemainder, blocks, base, top, end, {}, p);
      WordsBacked(mem, lay, bins, lastRemainder, blocks, base, top, end, {}, p);
      var size := SizeField(mem, p);
      r := Malloc(bytes, grant);
      if r.None? {
        return;
      }
      var q := r.value;
      ghost var mem1, lay1 := mem, lay;
      KeptLive(mem0, lay0, mem1, lay1, {}, p);
      KeepsLiveLess(mem0, lay0, mem1, lay1, {}, {p});
      KeptWords(mem0, lay0, mem1, lay1, {}, p, size);
      assert q in LiveSet(lay1) && p in LiveSet(lay0);
      if q == p + size {
        Merge(p, q, Request2Size(bytes));
        KeepsLiveTrans(mem0, lay0, mem1, lay1, mem, lay, {p}, {p, q});
        SameWordsTrans(mem0, p, mem1, p, mem, p, size);
        assert LiveSet(lay0) + {q} - {p, q} + {p} == LiveSet(lay0) - {p} + {p};
        return Some(p);
      }
      CopyAndFree(p, q);
      KeepsLiveTrans(mem0, lay0, mem1, lay1, mem, lay, {p}, {p, q});
      SameWordsTrans(mem0, p, mem1, p, mem, q, size);
    }

    /** The new block is the one right after. */
    method Merge(p: int, q: int, nb: nat)
      requires Valid() && Live(lay, p) && Live(lay, q) && q == Next(lay, p) && lay[p].size < nb <= lay[q].size && nb % 8 == 0
      modifies this
      ensures Valid() && KeepsLive(old(mem), old(lay), mem, lay, {p, q}) && LiveSet(lay) == old(LiveSet(lay)) - {p, q} + {p}
      ensures p in lay && nb <= lay[p].size < nb + MINSIZE && SameWords(old(mem), p, mem, p, old(lay[p].size))
    {
      hide Ok, KeepsLive, Aligned, Backed;
      ghost var mem0, size0 := mem, lay[p].size;
      LiveFacts(mem, lay, bins, lastRemainder, blocks, base, top, end, {}, p);
      LiveFacts(mem, lay, bins, lastRemainder, blocks, base, top, end, {}, q);
      ChunkFacts(mem, lay, bins, lastRemainder, blocks, base, top, end, {}, p);
      ChunkFacts(mem, lay, bins, lastRemainder, blocks, base, top, end, {}, q);
      WordsBacked(mem, lay, bins, lastRemainder, blocks, base, top, end, {}, p);
      SameWordsRefl(mem, p, lay[p].size);
      var hi := q + SizeField(mem, q);
      GatheredPair(lay, base, top, end, p, q);
      Split(p, hi, nb, mem, {}, {p, q});
      SameWordsKept(mem0, p, mem0, p, size0, mem, nb);
    }

    /** Copy the data of `p` into the larger block `q`. */
    method CopyBlock(p: int, q: int)
      requires Valid() && Live(lay, p) && Live(lay, q) && p != q && lay[p].size < lay[q].size
      modifies this`mem
      ensures Valid() && KeepsLive(old(mem), lay, mem, lay, {p, q}) && SameWords(old(mem), p, mem, q, lay[p].size)
    {
      hide Ok, KeepsLive, Backed, Aligned, Inside, SameWords;
      ghost var mem0 := mem;
      WordsBacked(mem, lay, bins, lastRemainder, blocks, base, top, end, {}, p);
      WordsBacked(mem, lay, bins, lastRemainder, blocks, base, top, end, {}, q);
      CopyPlace(mem, lay, bins, lastRemainder, blocks, base, top, end, p, q);
      CopyData(q, p, CopyCount(SizeField(mem, p)));
      CopyInside(mem0, mem, lay, q, lay[p].size);
      InsideWrite(mem0, mem, lay, bins, lastRemainder, blocks, base, top, end, {}, q);
      BackedMore(mem0, mem, base, end);
      KeepsLiveLess(mem0, lay, mem, lay, {q}, {p, q});
    }

    method CopyAndFree(p: int, q: int)
      requires Valid() && Live(lay, p) && Live(lay, q) && p != q && lay[p].size < lay[q].size
      modifies this
      ensures Valid() && KeepsLive(old(mem), old(lay), mem, lay, {p, q}) && LiveSet(lay) == old(LiveSet(lay)) - {p}
      ensures q in lay && lay[q].size == old(lay[q].size) && SameWords(old(mem), p, mem, q, old(lay[p].size))
    {
      hide Ok, KeepsLive, Backed, Aligned, SameWords;
      ghost var mem0, lay0 := mem, lay;
      CopyBlock(p, q);
      ghost var mem1 := mem;
      WordsBacked(mem, lay, bins, lastRemainder, blocks, base, top, end, {}, q);
      Release(p);
      KeepsLiveTrans(mem0, lay0, mem1, lay0, mem, lay, {p, q}, {p});
      KeptLive(mem1, lay0, mem, lay, {p}, q);
      KeptWords(mem1, lay0, mem, lay, {p}, q, lay0[p].size);
      SameWordsTrans(mem0, p, mem1, q, mem, q, lay0[p].size);
    }

    /**
     rEALLOc.  The block returned has the size asked for and starts with the old block's data,
     as far as both reach; no other block in use is disturbed.  The block stays where it is if
     it is large enough or can grow forward, moves down if it can grow only with the free chunk
     before it, and is copied otherwise.  It fails only if nothing free would do and no more
     space is granted; then the old block stays.
     */
    method Realloc(block: Option<int>, bytes: nat, grant: bool) returns (r: Option<int>)
      requires Valid() && bytes < 0x1_0000_0000 && (block.Some? ==> Live(lay, block.value))
      modifies this
      ensures Valid()
      ensures r.None? ==> LiveSet(lay) == old(LiveSet(lay)) && KeepsLive(old(mem), old(lay), mem, lay, {})
      ensures r.Some? && block.None? ==> LiveSet(lay) == old(LiveSet(lay)) + {r.value} && r.value !in old(LiveSet(lay)) && r.value in lay
      ensures r.Some? && block.None? ==> Request2Size(bytes) <= lay[r.value].size < Request2Size(bytes) + MINSIZE
      ensures r.Some? && block.None? ==> KeepsLive(old(mem), old(lay), mem, lay, {})
      ensures r.Some? && block.Some? ==> Moved(old(mem), old(lay), block.value, Request2Size(bytes), mem, lay, r.value)
      ensures r.None? ==> !grant || old(end) + SbrkSize(Request2Size(bytes), topPad, page) > LIMIT
      ensures r.None? ==> old(NoneFits(lay, top, Request2Size(bytes)))
      ensures block.Some? && old(Fits(lay, top, end, block.value, Request2Size(bytes))) ==> r == block
      ensures block.Some? && !old(Fits(lay, top, end, block.value, Request2Size(bytes))) ==>
                forall lo :: old(Backward(lay, top, end, lo, block.value, Request2Size(bytes))) ==> r == Some(lo)
    {
      if block.None? {
        r := Malloc(bytes, grant);
        return;
      }
      hide Ok, KeepsLive, Aligned, Backed;
      var p := block.value;
      var nb := Request2Size(bytes);
      LiveFacts(mem, lay, bins, lastRemainder, blocks, base, top, end, {}, p);
      if SizeField(mem, p) >= nb {
        Shrink(p, nb);
        return block;
      }
      var done := GrowForward(p, nb);
      if done {
        return block;
      }
      r := GrowBackward(p, nb);
      if r.None? {
        r := MoveToNew(p, bytes, grant);
      }
    }

    /** The old block is large enough. */
    method Shrink(p: int, nb: nat)
      requires Valid() && Live(lay, p) && MINSIZE <= nb <= lay[p].size && nb % 8 == 0
      modifies this
      ensures Valid() && Moved(old(mem), old(lay), p, nb, mem, lay, p)
    {
      hide Ok, KeepsLive, Aligned, Backed;
      ghost var mem0 := mem;
      LiveFacts(mem, lay, bins, lastRemainder, blocks, base, top, end, {}, p);
      ChunkFacts(mem, lay, bins, lastRemainder, blocks, base, top, end, {}, p);
      Around(mem, lay, bins, lastRemainder, blocks, base, top, end, {}, p, p, Next(lay, p));
      AroundGathered(lay, {}, p, p, Next(lay, p));
      WordsBacked(mem, lay, bins, lastRemainder, blocks, base, top, end, {}, p);
      SameWordsRefl(mem, p, nb);
      Split(p, p + SizeField(mem, p), nb, mem, {}, {p});
      SameWordsKept(mem0, p, mem0, p, nb, mem, nb);
    }

    /** A client writing into its own block. */
    method Store(p: int, a: int, v: int)
      requires Valid() && Live(lay, p) && Payload(lay, p, a)
      modifies this`mem
      ensures Valid() && KeepsLive(old(mem), lay, mem, lay, {p}) && mem == old(mem)[a := User(v)]
    {
      ghost var mem0 := mem;
      mem := mem[a := User(v)];
      InsideWrite(mem0, mem, lay, bins, lastRemainder, blocks, base, top, end, {}, p);
    }
  }

  /** Freeing the rest leaves the block's data where it is. */
  lemma SplitKeeps(mem1: Memory, mem2: Memory, lay2: Layout, mem3: Memory, lay3: Layout, lo: int, mid: int, nb: int)
    requires KeepsLive(mem2, lay2, mem3, lay3, {mid}) && Live(lay2, lo) && lay2[lo].size == nb && lo != mid
    requires forall a :: a in mem1 && lo + 8 <= a <= lo + nb ==> a in mem2 && mem2[a] == mem1[a]
    ensures lo in lay3 && lay3[lo].size == nb
    ensures forall a :: a in mem1 && lo + 8 <= a <= lo + nb ==> a in mem3 && mem3[a] == mem1[a]
  {
    forall a | a in mem1 && lo + 8 <= a <= lo + nb ensures a in mem3 && mem3[a] == mem1[a] {
      assert Payload(lay2, lo, a);
    }
  }
}
