/**
 The best-fit search of mALLOc in lib/dlmalloc.c: bins are scanned in increasing order,
 whole blocks of four being skipped, and block bits found stale cleared, on the way.
 */
module DlScan {
  import opened Basics
  import opened DlLayout
  import opened DlBins

  /** chunksize */
  function SizeField(mem: Memory, p: int): int {
    if p + 4 in mem && mem[p + 4].Head? then mem[p + 4].size else 0
  }

  /** The number whose binary digits are the block bits. */
  function BlockNumber(blocks: seq<bool>): nat {
    if blocks == [] then 0 else (if blocks[0] then 1 else 0) + 2 * BlockNumber(blocks[1..])
  }

  function Pow2(n: nat): (r: nat)
    ensures r > 0
  {
    if n == 0 then 1 else 2 * Pow2(n - 1)
  }

  /** The bit of block `b`, as shifting an unsigned long of 32 bits makes it: none is left
      after the last block. */
  function BlockBit(b: nat): nat {
    Pow2(b) % 0x1_0000_0000
  }

  /** Some block at or above `b` is marked. */
  ghost predicate MarkedFrom(blocks: seq<bool>, b: nat) {
    exists i :: b <= i < |blocks| && blocks[i]
  }

  /** Comparing the shifted block bit with the bitmap as numbers asks whether any block at or
      above it is marked. */
  lemma {:induction false} BlockComparison(blocks: seq<bool>, b: nat)
    requires b < |blocks|
    ensures Pow2(b) <= BlockNumber(blocks) <==> MarkedFrom(blocks, b)
  {
    if b == 0 {
      AnyMarked(blocks);
    } else {
      BlockComparison(blocks[1..], b - 1);
      if MarkedFrom(blocks, b) {
        var i :| b <= i < |blocks| && blocks[i];
        assert blocks[1..][i - 1];
      }
      if MarkedFrom(blocks[1..], b - 1) {
        var i :| b - 1 <= i < |blocks[1..]| && blocks[1..][i];
        assert blocks[i + 1];
      }
    }
  }

  lemma {:induction false} AnyMarked(blocks: seq<bool>)
    ensures BlockNumber(blocks) >= 1 <==> MarkedFrom(blocks, 0)
  {
    if blocks != [] {
      AnyMarked(blocks[1..]);
      if MarkedFrom(blocks[1..], 0) {
        var i :| 0 <= i < |blocks[1..]| && blocks[1..][i];
        assert blocks[i + 1];
      }
      if MarkedFrom(blocks, 0) && !blocks[0] {
        var i :| 0 <= i < |blocks| && blocks[i];
        assert blocks[1..][i - 1];
      }
    }
  }

  lemma {:induction false} Pow2Less(b: nat, n: nat)
    requires b < n
    ensures Pow2(b) < Pow2(n)
    decreases n
  {
    if b < n - 1 {
      Pow2Less(b, n - 1);
    }
  }

  lemma Pow2Eight(n: nat)
    ensures Pow2(n + 8) == 256 * Pow2(n)
  {
    assert Pow2(n + 8) == 2 * Pow2(n + 7) == 4 * Pow2(n + 6) == 8 * Pow2(n + 5) == 16 * Pow2(n + 4);
    assert Pow2(n + 4) == 2 * Pow2(n + 3) == 4 * Pow2(n + 2) == 8 * Pow2(n + 1) == 16 * Pow2(n);
  }

  lemma BlockBitIs(b: nat)
    requires b <= BLOCKS
    ensures BlockBit(b) == if b == BLOCKS then 0 else Pow2(b)
  {
    Pow2Eight(0);
    Pow2Eight(8);
    Pow2Eight(16);
    Pow2Eight(24);
    hide Pow2;
    if b < BLOCKS {
      Pow2Less(b, BLOCKS);
    }
  }

  /** The guard of the search: `block <= binblocks`, with a bit shifted out caught. */
  lemma GuardMeansMarked(blocks: seq<bool>, b: nat)
    requires |blocks| == BLOCKS && b <= BLOCKS
    ensures 0 != BlockBit(b) <= BlockNumber(blocks) <==> MarkedFrom(blocks, b)
  {
    BlockBitIs(b);
    if b < BLOCKS {
      BlockComparison(blocks, b);
    }
  }

  /** What the search may rely on. */
  ghost predicate Searchable(lay: Layout, mem: Memory, bins: seq<Bin>) {
    && |bins| == NAV
    && (forall i :: 0 <= i < NAV ==> BinSorted(lay, bins[i]))
    && (forall i, p :: 0 <= i < NAV && p in bins[i] ==> BinIndex(SizeAt(lay, p)) == i && SizeField(mem, p) == SizeAt(lay, p))
  }

  /** The smallest chunk of at least `nb` bytes in the bins from `idx` on. */
  ghost predicate BestFit(lay: Layout, bins: seq<Bin>, idx: nat, nb: nat, i: nat, k: nat) {
    && idx <= i < |bins| && k < |bins[i]| && SizeAt(lay, bins[i][k]) >= nb
    && forall j, p :: idx <= j < |bins| && p in bins[j] && SizeAt(lay, p) >= nb ==> SizeAt(lay, bins[i][k]) <= SizeAt(lay, p)
  }

  ghost predicate Unfit(lay: Layout, bins: seq<Bin>, from: nat, to: nat, nb: nat) {
    forall j, p :: from <= j < to && j < |bins| && p in bins[j] ==> SizeAt(lay, p) < nb
  }

  /** Only the first bin searched can hold chunks that do not fit, and then it has one that does. */
  ghost predicate FitsFrom(lay: Layout, bins: seq<Bin>, idx: nat, nb: nat) {
    || (forall j, p :: idx <= j < |bins| && p in bins[j] ==> SizeAt(lay, p) >= nb)
    || (idx < |bins| && exists p :: p in bins[idx] && SizeAt(lay, p) >= nb)
  }

  /** One bin, from its smallest chunk up. */
  method FindInBin(ghost lay: Layout, mem: Memory, bin: Bin, nb: nat) returns (k: int)
    requires BinSorted(lay, bin) && forall p :: p in bin ==> SizeField(mem, p) == SizeAt(lay, p)
    ensures -1 <= k < |bin|
    ensures k == -1 ==> forall p :: p in bin ==> SizeAt(lay, p) < nb
    ensures k >= 0 ==> SizeAt(lay, bin[k]) >= nb && forall j :: k < j < |bin| ==> SizeAt(lay, bin[j]) < nb
  {
    k := |bin| - 1;
    while k >= 0 && SizeField(mem, bin[k]) < nb
      invariant -1 <= k < |bin|
      invariant forall j :: k < j < |bin| ==> SizeAt(lay, bin[j]) < nb
    {
      k := k - 1;
    }
  }

  /** The first fit met in scan order is the best fit, since bins are ordered by size. */
  lemma FirstIsBest(lay: Layout, mem: Memory, bins: seq<Bin>, idx: nat, nb: nat, i: nat, k: nat)
    requires Searchable(lay, mem, bins) && idx <= i < NAV && k < |bins[i]| && SizeAt(lay, bins[i][k]) >= nb
    requires Unfit(lay, bins, idx, i, nb) && forall j :: k < j < |bins[i]| ==> SizeAt(lay, bins[i][j]) < nb
    ensures BestFit(lay, bins, idx, nb, i, k)
  {
    var v := bins[i][k];
    assert v in bins[i];
    forall j, p | idx <= j < NAV && p in bins[j] && SizeAt(lay, p) >= nb ensures SizeAt(lay, v) <= SizeAt(lay, p) {
      if j == i {
        var m :| 0 <= m < |bins[i]| && bins[i][m] == p;
        assert m == k || m < k;
      } else {
        assert j > i && BinIndex(SizeAt(lay, p)) > BinIndex(SizeAt(lay, v));
        if SizeAt(lay, p) < SizeAt(lay, v) {
          BinIndexMonotone(SizeAt(lay, p), SizeAt(lay, v));
          assert false;
        }
      }
    }
  }

  /** From a block without a mark to the next one with; `idx` follows to its first bin. */
  method NextMarked(blocks: seq<bool>, b0: nat) returns (b: nat)
    requires |blocks| == BLOCKS && b0 < BLOCKS && MarkedFrom(blocks, b0)
    ensures b0 <= b < BLOCKS && blocks[b] && forall i :: b0 <= i < b ==> !blocks[i]
  {
    b := b0;
    while !blocks[b]
      invariant b0 <= b < BLOCKS && MarkedFrom(blocks, b)
      invariant forall i :: b0 <= i < b ==> !blocks[i]
      decreases BLOCKS - b
    {
      b := b + 1;
    }
  }

  /** "Possibly backtrack to try to clear a partial block": every bin from `start` to the end
      of block `b` is known to be empty; look at the ones before. */
  method ClearBlock(bins: seq<Bin>, blocks: seq<bool>, b: nat, start: nat) returns (blocks': seq<bool>)
    requires BlocksOk(bins, blocks) && b < BLOCKS && 4 * b <= start < 4 * b + 4
    requires forall i :: start <= i < 4 * b + 4 ==> bins[i] == []
    ensures BlocksOk(bins, blocks')
    ensures forall i :: 0 <= i < BLOCKS && i != b ==> blocks'[i] == blocks[i]
  {
    var s := start;
    while s % 4 != 0
      invariant 4 * b <= s <= start
      invariant forall i :: s <= i < 4 * b + 4 ==> bins[i] == []
    {
      s := s - 1;
      if bins[s] != [] {
        return blocks;
      }
    }
    blocks' := blocks[b := false];
    forall i | 0 <= i < NAV && bins[i] != [] ensures blocks'[i / 4] {
      assert i / 4 != b;
    }
  }

  /** The scan over blocks and bins. */
  method Scan(ghost lay: Layout, mem: Memory, bins: seq<Bin>, blocks: seq<bool>, nb: nat, idx0: nat)
    returns (found: Option<(nat, nat)>, blocks': seq<bool>)
    requires Searchable(lay, mem, bins) && BlocksOk(bins, blocks) && idx0 < NAV && FitsFrom(lay, bins, idx0, nb)
    ensures BlocksOk(bins, blocks')
    ensures found.Some? ==> BestFit(lay, bins, idx0, nb, found.value.0, found.value.1)
    ensures found.None? ==> Unfit(lay, bins, idx0, NAV, nb)
  {
    hide BlockBit, BlockNumber;
    blocks' := blocks;
    var idx, b := idx0, idx0 / 4;
    GuardMeansMarked(blocks', b);
    while 0 != BlockBit(b) <= BlockNumber(blocks')
      invariant 0 != BlockBit(b) <= BlockNumber(blocks') <==> MarkedFrom(blocks', b)
      invariant idx0 <= idx && b <= BLOCKS && idx / 4 == b && (idx == idx0 || idx % 4 == 0)
      invariant BlocksOk(bins, blocks')
      invariant Unfit(lay, bins, idx0, idx, nb)
      invariant idx > idx0 ==> forall j, p :: idx0 <= j < NAV && p in bins[j] ==> SizeAt(lay, p) >= nb
      decreases BLOCKS - b
    {
      if !blocks'[b] {
        var b' := NextMarked(blocks', b);
        SkipUnmarked(lay, bins, blocks', nb, idx, b, b');
        UnionUnfit(lay, bins, idx0, idx, 4 * b', nb);
        NothingBefore(lay, bins, blocks', nb, idx0, idx, b);
        idx, b := 4 * b', b';
      }
      var start := idx;
      while idx < 4 * b + 4
        invariant start <= idx <= 4 * b + 4
        invariant Unfit(lay, bins, idx0, idx, nb)
        invariant idx > idx0 ==> forall j, p :: idx0 <= j < NAV && p in bins[j] ==> SizeAt(lay, p) >= nb
      {
        var k := FindInBin(lay, mem, bins[idx], nb);
        if k >= 0 {
          FirstIsBest(lay, mem, bins, idx0, nb, idx, k);
          return Some((idx, k)), blocks';
        }
        assert Unfit(lay, bins, idx0, idx + 1, nb);
        idx := idx + 1;
      }
      forall i | start <= i < 4 * b + 4 ensures bins[i] == [] {
        EmptyBin(lay, bins[i], nb);
      }
      blocks' := ClearBlock(bins, blocks', b, start);
      b := b + 1;
      GuardMeansMarked(blocks', b);
    }
    NoneMarked(lay, bins, blocks', nb, idx0, idx, b);
    return None, blocks';
  }

  /** A bin whose chunks all fit and all do not is empty. */
  lemma EmptyBin(lay: Layout, bin: Bin, nb: nat)
    requires forall p :: p in bin ==> SizeAt(lay, p) >= nb
    requires forall p :: p in bin ==> SizeAt(lay, p) < nb
    ensures bin == []
  {
    HasMember(bin);
  }

  lemma HasMember(bin: Bin)
    ensures bin != [] ==> exists p :: p in bin
  {
    if bin != [] {
      var p := bin[0];
      assert p in bin;
    }
  }

  lemma UnionUnfit(lay: Layout, bins: seq<Bin>, a: nat, b: nat, c: nat, nb: nat)
    requires Unfit(lay, bins, a, b, nb) && Unfit(lay, bins, b, c, nb)
    ensures Unfit(lay, bins, a, c, nb)
  {
  }

  /** Bins of unmarked blocks are empty. */
  lemma SkipUnmarked(lay: Layout, bins: seq<Bin>, blocks: seq<bool>, nb: nat, idx: nat, b: nat, b': nat)
    requires BlocksOk(bins, blocks) && b <= b' < BLOCKS && idx / 4 == b
    requires forall i :: b <= i < b' ==> !blocks[i]
    ensures Unfit(lay, bins, idx, 4 * b', nb)
  {
    forall j | idx <= j < 4 * b' ensures bins[j] == [] {
      assert !blocks[j / 4];
    }
  }

  /** If the first block is skipped, its first bin was empty, so everything beyond fits. */
  lemma NothingBefore(lay: Layout, bins: seq<Bin>, blocks: seq<bool>, nb: nat, idx0: nat, idx: nat, b: nat)
    requires BlocksOk(bins, blocks) && FitsFrom(lay, bins, idx0, nb) && idx0 <= idx < NAV && idx / 4 == b && !blocks[b]
    requires idx > idx0 ==> forall j, p :: idx0 <= j < NAV && p in bins[j] ==> SizeAt(lay, p) >= nb
    ensures forall j, p :: idx0 <= j < NAV && p in bins[j] ==> SizeAt(lay, p) >= nb
  {
    if idx == idx0 {
      assert bins[idx0] == [];
    }
  }

  lemma NoneMarked(lay: Layout, bins: seq<Bin>, blocks: seq<bool>, nb: nat, idx0: nat, idx: nat, b: nat)
    requires BlocksOk(bins, blocks) && idx / 4 == b && !MarkedFrom(blocks, b)
    requires Unfit(lay, bins, idx0, idx, nb)
    ensures Unfit(lay, bins, idx0, NAV, nb)
  {
    forall j | idx <= j < NAV ensures bins[j] == [] {
      assert b <= j / 4 < BLOCKS;
    }
  }
}
