/**
 The bins of lib/dlmalloc.c: segregated free lists in decreasing size order, the
 last-remainder list, and the bitmap of possibly non-empty blocks of bins.
 */
module DlBins {
  import opened DlLayout

  const NAV := 128
  const BINBLOCKWIDTH := 4
  const BLOCKS := 32

  /** bin_index */
  function BinIndex(sz: nat): (i: nat)
    ensures i <= 126
  {
    if sz / 512 == 0 then sz / 8
    else if sz / 512 <= 4 then 56 + sz / 64
    else if sz / 512 <= 20 then 91 + sz / 512
    else if sz / 512 <= 84 then 110 + sz / 4096
    else if sz / 512 <= 340 then 119 + sz / 32768
    else if sz / 512 <= 1364 then 124 + sz / 262144
    else 126
  }

  /** Larger chunks never go to a lower bin. */
  lemma BinIndexMonotone(x: nat, y: nat)
    requires x <= y
    ensures BinIndex(x) <= BinIndex(y)
  {
  }

  /** A small bin holds one size, in steps of eight bytes. */
  lemma SmallBinExact(x: nat, y: nat)
    requires x % 8 == 0 && y % 8 == 0 && x < 512 && BinIndex(x) == BinIndex(y)
    ensures x == y
  {
  }

  type Bin = seq<int>

  function SizeAt(lay: Layout, p: int): (n: nat) {
    if p in lay && lay[p].size >= 0 then lay[p].size else 0
  }

  /** Decreasing sizes, no chunk twice. */
  ghost predicate BinSorted(lay: Layout, bin: Bin) {
    forall j, k :: 0 <= j < k < |bin| ==> SizeAt(lay, bin[j]) >= SizeAt(lay, bin[k]) && bin[j] != bin[k]
  }

  /** Every free chunk is in exactly one list: its bin, the last-remainder list, or, while an
      operation has it in hand, `loose`. */
  ghost predicate BinsOk(lay: Layout, top: int, bins: seq<Bin>, lr: Bin, loose: set<int>) {
    && |bins| == NAV && |lr| <= 1
    && (forall i :: 0 <= i < NAV ==> BinSorted(lay, bins[i]))
    && (forall i, p :: 0 <= i < NAV && p in bins[i] ==>
          Free(lay, top, p) && BinIndex(SizeAt(lay, p)) == i && p !in loose && p !in lr)
    && (forall p :: p in lr ==> Free(lay, top, p) && p !in loose)
    && (forall p :: p in loose ==> Free(lay, top, p))
    && (forall p {:trigger Free(lay, top, p)} ::
          Free(lay, top, p) && p !in loose && p !in lr ==> p in bins[BinIndex(SizeAt(lay, p))])
  }

  /** The bitmap may have stale bits, but a non-empty bin always has its block marked. */
  ghost predicate BlocksOk(bins: seq<Bin>, blocks: seq<bool>) {
    |bins| == NAV && |blocks| == BLOCKS && forall i :: 0 <= i < NAV && bins[i] != [] ==> blocks[i / BINBLOCKWIDTH]
  }

  // ----- unlink -----

  function Without(bin: Bin, p: int): Bin {
    if bin == [] then [] else if bin[0] == p then bin[1..] else [bin[0]] + Without(bin[1..], p)
  }

  lemma {:induction false} WithoutSpec(lay: Layout, bin: Bin, p: int)
    requires BinSorted(lay, bin)
    ensures BinSorted(lay, Without(bin, p))
    ensures forall q :: q in Without(bin, p) <==> q in bin && q != p
  {
    if bin != [] {
      assert BinSorted(lay, bin[1..]) && forall q :: q in bin <==> q == bin[0] || q in bin[1..];
      if bin[0] == p {
        forall q | q in bin[1..] ensures q != p {
          var k :| 0 <= k < |bin[1..]| && bin[1..][k] == q;
          assert bin[0] != bin[k + 1];
        }
      } else {
        WithoutSpec(lay, bin[1..], p);
        var rest := Without(bin[1..], p);
        forall k | 0 <= k < |rest| ensures SizeAt(lay, bin[0]) >= SizeAt(lay, rest[k]) && bin[0] != rest[k] {
          assert rest[k] in rest && rest[k] in bin[1..];
          var j :| 0 <= j < |bin[1..]| && bin[1..][j] == rest[k];
          assert SizeAt(lay, bin[0]) >= SizeAt(lay, bin[j + 1]) && bin[0] != bin[j + 1];
        }
      }
    }
  }

  /** Taking a listed chunk off its list makes it loose. */
  lemma UnlinkBin(lay: Layout, top: int, bins: seq<Bin>, lr: Bin, loose: set<int>, p: int)
    requires BinsOk(lay, top, bins, lr, loose) && Free(lay, top, p) && p !in loose && p !in lr
    ensures var i := BinIndex(SizeAt(lay, p)); p in bins[i] && BinsOk(lay, top, bins[i := Without(bins[i], p)], lr, loose + {p})
  {
    var i := BinIndex(SizeAt(lay, p));
    WithoutSpec(lay, bins[i], p);
    var bins' := bins[i := Without(bins[i], p)];
    forall j, q | 0 <= j < NAV && q in bins'[j]
      ensures Free(lay, top, q) && BinIndex(SizeAt(lay, q)) == j && q !in loose + {p} && q !in lr
    {
      assert q in bins[j];
    }
  }

  lemma UnlinkRemainder(lay: Layout, top: int, bins: seq<Bin>, lr: Bin, loose: set<int>, p: int)
    requires BinsOk(lay, top, bins, lr, loose) && p in lr
    ensures BinsOk(lay, top, bins, [], loose + {p})
  {
    assert lr == [p];
  }

  lemma LinkRemainder(lay: Layout, top: int, bins: seq<Bin>, loose: set<int>, p: int)
    requires BinsOk(lay, top, bins, [], loose) && p in loose
    ensures BinsOk(lay, top, bins, [p], loose - {p})
  {
  }

  // ----- frontlink -----

  lemma FrontlinkSorted(lay: Layout, bin: Bin, p: int, k: nat)
    requires BinSorted(lay, bin) && p !in bin && k <= |bin|
    requires forall j :: 0 <= j < k ==> SizeAt(lay, p) <= SizeAt(lay, bin[j])
    requires k < |bin| ==> SizeAt(lay, bin[k]) <= SizeAt(lay, p)
    ensures var bin' := bin[..k] + [p] + bin[k..];
      BinSorted(lay, bin') && forall q :: q in bin' <==> q in bin || q == p
  {
    var bin' := bin[..k] + [p] + bin[k..];
    forall j | k <= j < |bin| ensures SizeAt(lay, bin[j]) <= SizeAt(lay, p) {
      assert j == k || SizeAt(lay, bin[k]) >= SizeAt(lay, bin[j]);
    }
    forall j | 0 <= j < |bin| ensures bin[j] != p {
      assert bin[j] in bin;
    }
    assert forall j :: 0 <= j < k ==> bin'[j] == bin[j];
    assert bin'[k] == p;
    assert forall j :: k < j < |bin'| ==> bin'[j] == bin[j - 1];
    InsertedMembers(bin, p, k);
  }

  lemma InsertedMembers(bin: Bin, p: int, k: nat)
    requires k <= |bin|
    ensures forall q :: q in bin[..k] + [p] + bin[k..] <==> q in bin || q == p
  {
    assert bin == bin[..k] + bin[k..];
  }

  /** Linking a loose chunk into its bin at a sorted position. */
  lemma FrontlinkBin(lay: Layout, top: int, bins: seq<Bin>, lr: Bin, loose: set<int>, p: int, k: nat)
    requires BinsOk(lay, top, bins, lr, loose) && p in loose && p !in lr
    requires var i := BinIndex(SizeAt(lay, p));
      && k <= |bins[i]|
      && (forall j :: 0 <= j < k ==> SizeAt(lay, p) <= SizeAt(lay, bins[i][j]))
      && (k < |bins[i]| ==> SizeAt(lay, bins[i][k]) <= SizeAt(lay, p))
    ensures var i := BinIndex(SizeAt(lay, p));
      BinsOk(lay, top, bins[i := bins[i][..k] + [p] + bins[i][k..]], lr, loose - {p})
  {
    var i := BinIndex(SizeAt(lay, p));
    var bin' := bins[i][..k] + [p] + bins[i][k..];
    FrontlinkSorted(lay, bins[i], p, k);
    var bins' := bins[i := bin'];
    forall j, q | 0 <= j < NAV && q in bins'[j]
      ensures Free(lay, top, q) && BinIndex(SizeAt(lay, q)) == j && q !in loose - {p} && q !in lr
    {
      assert q in bins[j] || (j == i && q == p);
    }
  }

  // ----- Lists under a change of layout -----

  /** Re-dividing a region whose free chunks are all loose leaves the lists alone. */
  lemma ReplaceBins(lay: Layout, base: int, top: int, end: int, bins: seq<Bin>, lr: Bin, loose: set<int>,
                    lo: int, hi: int, cs: Layout, top': int, loose': set<int>)
    requires Tiling(lay, base, top, end) && Region(lay, lo, hi, end) && NewTiles(cs, lo, hi, top')
    requires if hi in lay then top' == top && top' !in cs else top' in cs
    requires BinsOk(lay, top, bins, lr, loose)
    requires forall p {:trigger Free(lay, top, p)} :: Free(lay, top, p) && lo <= p < hi ==> p in loose
    requires loose' == (set p | p in loose && !(lo <= p < hi)) + (set p | p in cs && Free(cs, top', p))
    ensures BinsOk(Replace(lay, lo, hi, cs), top', bins, lr, loose')
  {
    var lay' := Replace(lay, lo, hi, cs);
    assert Next(lay, top) == end;
    forall p | Free(lay, top, p) && !(lo <= p < hi)
      ensures Free(lay', top', p) && SizeAt(lay', p) == SizeAt(lay, p) && (p in loose' <==> p in loose)
    {
      InReplace(lay, lo, hi, cs, p);
    }
    forall p | Free(lay', top', p) ensures (p in cs && p in loose') || (Free(lay, top, p) && !(lo <= p < hi)) {
      InReplace(lay, lo, hi, cs, p);
    }
    forall p | p in loose' ensures Free(lay', top', p) {
      InReplace(lay, lo, hi, cs, p);
    }
    forall i | 0 <= i < NAV ensures BinSorted(lay', bins[i]) {
      forall j | 0 <= j < |bins[i]| ensures SizeAt(lay', bins[i][j]) == SizeAt(lay, bins[i][j]) {
        assert bins[i][j] in bins[i];
      }
    }
  }
}
