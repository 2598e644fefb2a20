/**
 The message digest driver of lib/md5.c, over any block transform.  The 16 words of `in` are
 kept as 64 bytes, least significant byte first.
 */
module Md5 {
  import opened Basics

  const WORD := 0x1_0000_0000

  // ----- Batch -----

  /** The transform folded over the complete blocks of a message. */
  function Fold<S>(t: (S, seq<byte>) -> S, s: S, m: seq<byte>): S
    decreases |m|
  {
    if |m| < 64 then s else Fold(t, t(s, m[..64]), m[64..])
  }

  function Zeros(n: nat): (s: seq<byte>)
    ensures |s| == n
  {
    seq(n, _ => 0)
  }

  function LittleEndian(x: nat, n: nat): (s: seq<byte>)
    ensures |s| == n
  {
    if n == 0 then [] else [x % 256] + LittleEndian(x / 256, n - 1)
  }

  function PadSize(n: nat): nat {
    if n % 64 < 56 then 55 - n % 64 else 119 - n % 64
  }

  /** Sections 3.1 and 3.2 of RFC 1321: a one bit, zero bits, and the length in bits modulo
      2^64. */
  function Padded(m: seq<byte>): seq<byte> {
    m + ([0x80] + Zeros(PadSize(|m|)) + LittleEndian(8 * |m| % (WORD * WORD), 8))
  }

  /** Byte by byte: the message, a byte with only its top bit set, null bytes up to 56 modulo 64,
      and the number of bits modulo 2^64, low byte first. */
  lemma PaddedBytes(m: seq<byte>)
    ensures var p, n := Padded(m), |m|;
      && |p| % 64 == 0 && n + 9 <= |p| < n + 9 + 64
      && (forall i :: 0 <= i < |p| - 8 ==> p[i] == if i < n then m[i] else if i == n then 0x80 else 0)
      && (forall k :: 0 <= k < 8 ==> p[|p| - 8 + k] == 8 * n % (WORD * WORD) / Power256(k) % 256)
  {
    var n, bits := |m|, 8 * |m| % (WORD * WORD);
    var z, len := Zeros(PadSize(n)), LittleEndian(bits, 8);
    PadMod(n);
    LittleEndianBytes(bits, 8);
    assert forall i :: 0 <= i < |z| ==> z[i] == 0;
    hide Power256, LittleEndian, Zeros, PadSize;
    PaddedAt(m, z, len);
  }

  lemma PadMod(n: nat)
    ensures (n + 1 + PadSize(n) + 8) % 64 == 0 && PadSize(n) < 64
  {
    var q, r := n / 64, n % 64;
    assert n == 64 * q + r;
  }

  lemma PaddedAt(m: seq<byte>, z: seq<byte>, len: seq<byte>)
    requires |len| == 8 && forall i :: 0 <= i < |z| ==> z[i] == 0
    ensures var p, n := m + ([0x80] + z + len), |m|;
      && |p| == n + 1 + |z| + 8
      && (forall i :: 0 <= i < |p| - 8 ==> p[i] == if i < n then m[i] else if i == n then 0x80 else 0)
      && (forall k :: 0 <= k < 8 ==> p[|p| - 8 + k] == len[k])
  {
  }

  function Power256(k: nat): (r: nat)
    ensures r > 0
  {
    if k == 0 then 1 else 256 * Power256(k - 1)
  }

  lemma {:induction false} LittleEndianBytes(x: nat, n: nat)
    ensures forall k :: 0 <= k < n ==> LittleEndian(x, n)[k] == x / Power256(k) % 256
    decreases n
  {
    if n > 0 {
      LittleEndianBytes(x / 256, n - 1);
      forall k | 0 <= k < n ensures LittleEndian(x, n)[k] == x / Power256(k) % 256 {
        if k > 0 {
          assert LittleEndian(x, n)[k] == LittleEndian(x / 256, n - 1)[k - 1];
          DivideTwice(x, Power256(k - 1));
        }
      }
    }
  }

  lemma DivideTwice(x: nat, m: nat)
    requires m > 0
    ensures x / 256 / m == x / (256 * m)
  {
    var q, r := x / 256, x % 256;
    var a, b := q / m, q % m;
    assert q == a * m + b;
    assert x == 256 * (a * m + b) + r;
    assert x == a * (256 * m) + (256 * b + r);
    assert 256 * b + r < 256 * m;
    QuotientOf(a, 256 * m, 256 * b + r);
  }

  lemma QuotientOf(a: nat, m: nat, r: nat)
    requires r < m
    ensures (a * m + r) / m == a
  {
    var x := a * m + r;
    var q, d := x / m, x / m - a;
    assert q * m == a * m + d * m;
    assert d * m == r - x % m;
    if d >= 1 {
      AtLeast(d, m);
    } else if d <= -1 {
      AtLeast(-d, m);
    }
  }

  lemma AtLeast(d: int, m: nat)
    requires d >= 1
    ensures d * m >= m && -d * m == -(d * m)
  {
  }

  function Tail(m: seq<byte>): (t: seq<byte>)
    ensures |t| == |m| % 64
  {
    m[|m| - |m| % 64..]
  }

  lemma {:induction false} FoldAppend<S>(t: (S, seq<byte>) -> S, s: S, a: seq<byte>, b: seq<byte>)
    requires |a| % 64 == 0
    ensures Fold(t, s, a + b) == Fold(t, Fold(t, s, a), b)
    decreases |a|
  {
    if |a| < 64 {
      assert a + b == b;
    } else {
      assert (a + b)[..64] == a[..64] && (a + b)[64..] == a[64..] + b;
      FoldAppend(t, t(s, a[..64]), a[64..], b);
    }
  }

  /** Only what is left of the last block matters for what comes after. */
  lemma FoldTail<S>(t: (S, seq<byte>) -> S, s: S, m: seq<byte>, b: seq<byte>)
    ensures Fold(t, s, m + b) == Fold(t, Fold(t, s, m), Tail(m) + b)
  {
    var a := m[..|m| - |m| % 64];
    assert m == a + Tail(m) && m + b == a + (Tail(m) + b);
    FoldAppend(t, s, a, Tail(m));
    FoldAppend(t, s, a, Tail(m) + b);
  }

  lemma TailAppend(m: seq<byte>, b: seq<byte>)
    ensures Tail(m + b) == Tail(Tail(m) + b)
  {
    var k := |m| - |m| % 64;
    assert |m + b| == k + |Tail(m) + b|;
    Multiple(k, |Tail(m) + b|);
    assert Tail(m) + b == (m + b)[k..];
  }

  lemma Multiple(k: nat, n: nat)
    requires k % 64 == 0
    ensures (k + n) % 64 == n % 64
  {
  }

  /** Exactly one more block. */
  lemma FoldBlock<S>(t: (S, seq<byte>) -> S, s: S, b: seq<byte>, rest: seq<byte>)
    requires |b| == 64
    ensures Fold(t, s, b + rest) == Fold(t, t(s, b), rest) && Tail(b + rest) == Tail(rest)
  {
    assert (b + rest)[..64] == b && (b + rest)[64..] == rest;
    Multiple(64, |rest|);
  }

  // ----- Counting -----

  lemma CountLow(n: nat)
    ensures n % WORD % 64 == n % 64
  {
    var q := n / WORD;
    assert n == 64 * (q * 0x400_0000) + n % WORD;
  }

  /** The 32-bit carry. */
  lemma CountUp(n: nat, k: nat)
    requires k < WORD
    ensures (n % WORD + k) % WORD == (n + k) % WORD
    ensures var carry := (n % WORD + k) % WORD < n % WORD;
      (n + k) / WORD % WORD == (n / WORD % WORD + if carry then 1 else 0) % WORD
  {
    var q, r := n / WORD, n % WORD;
    if r + k < WORD {
      Quotient(n + k, q, r + k);
    } else {
      Quotient(n + k, q + 1, r + k - WORD);
    }
    NextWord(q);
  }

  lemma Quotient(x: nat, q: nat, r: nat)
    requires x == q * WORD + r && r < WORD
    ensures x / WORD == q && x % WORD == r
  {
  }

  lemma NextWord(q: nat)
    ensures (q + 1) % WORD == (q % WORD + 1) % WORD
  {
  }

  /** The length in bits as Final stores it: both words shifted left by three. */
  lemma BitLength(n: nat)
    ensures var lo, hi := n % WORD, n / WORD % WORD;
      && 8 * n % (WORD * WORD) == (hi * 8 % WORD + lo / 0x2000_0000) * WORD + lo * 8 % WORD
      && hi * 8 % WORD + lo / 0x2000_0000 < WORD
  {
    var lo, q := n % WORD, n / WORD;
    var hi, p := q % WORD, q / WORD;
    var a, b := hi / 0x2000_0000, hi % 0x2000_0000;
    var c, d := lo / 0x2000_0000, lo % 0x2000_0000;
    assert 8 * hi == a * WORD + 8 * b && 8 * lo == c * WORD + 8 * d;
    Quotient(8 * hi, a, 8 * b);
    Quotient(8 * lo, c, 8 * d);
    assert 8 * n == (8 * p + a) * (WORD * WORD) + ((8 * b + c) * WORD + 8 * d);
    Remainder(8 * n, 8 * p + a, (8 * b + c) * WORD + 8 * d);
  }

  lemma Remainder(x: nat, q: nat, r: nat)
    requires x == q * (WORD * WORD) + r && r < WORD * WORD
    ensures x % (WORD * WORD) == r
  {
  }

  lemma {:induction false} LittleEndianSplit(hi: nat, lo: nat, k: nat, m: nat)
    requires lo < Power256(k)
    ensures LittleEndian(hi * Power256(k) + lo, k + m) == LittleEndian(lo, k) + LittleEndian(hi, m)
    decreases k
  {
    if k == 0 {
      assert [] + LittleEndian(hi, m) == LittleEndian(hi, m);
    } else {
      SplitByte(hi, lo, Power256(k), Power256(k - 1));
      LittleEndianSplit(hi, lo / 256, k - 1, m);
    }
  }

  lemma TwoWords(hi: nat, lo: nat)
    requires lo < WORD
    ensures LittleEndian(hi * WORD + lo, 8) == LittleEndian(lo, 4) + LittleEndian(hi, 4)
  {
    assert Power256(2) == 256 * Power256(1) && Power256(4) == WORD;
    LittleEndianSplit(hi, lo, 4, 4);
  }

  lemma SplitByte(hi: nat, lo: nat, unit: nat, less: nat)
    requires unit == 256 * less && lo < unit && less > 0
    ensures (hi * unit + lo) % 256 == lo % 256 && (hi * unit + lo) / 256 == hi * less + lo / 256 && lo / 256 < less
  {
    assert hi * unit + lo == 256 * (hi * less + lo / 256) + lo % 256;
  }

  // ----- Streaming -----

  /** memcpy into the block buffer. */
  method CopyIn(a: array<byte>, at: nat, s: seq<byte>)
    requires at + |s| <= a.Length
    modifies a
    ensures a[..] == old(a[..at]) + s + old(a[at + |s|..])
  {
    ghost var was := a[..];
    for i := 0 to |s|
      invariant a[..] == was[..at] + s[..i] + was[at + i..]
    {
      a[at + i] := s[i];
    }
    assert s[..|s|] == s;
  }

  class Context<S> {
    var buf: S
    var low: int
    var high: int
    const block: array<byte>
    const transform: (S, seq<byte>) -> S
    const init: S
    ghost var msg: seq<byte>

    /** The state stands for the message so far. */
    ghost predicate Valid()
      reads this, block
    {
      && block.Length == 64 && low == |msg| % WORD && high == |msg| / WORD % WORD
      && buf == Fold(transform, init, msg) && block[..|msg| % 64] == Tail(msg)
    }

    /** SQUID_MD5Init. */
    constructor (start: S, t: (S, seq<byte>) -> S)
      ensures Valid() && msg == [] && fresh(block) && init == start && transform == t
    {
      buf, low, high, init, transform, msg := start, 0, 0, start, t, [];
      block := new byte[64];
    }

    /** SQUID_MD5Update: the state stands for the longer message. */
    method Update(data: seq<byte>)
      requires Valid() && |data| < WORD
      modifies this, block
      ensures Valid() && msg == old(msg) + data
    {
      hide Fold, Tail;
      ghost var m := msg;
      var t := low;
      CountUp(|m|, |data|);
      CountLow(|m|);
      low := (t + |data|) % WORD;
      if low < t {
        high := (high + 1) % WORD;
      }
      msg := m + data;
      FoldTail(transform, init, m, data);
      TailAppend(m, data);
      t := 64 - t % 64;
      if t > |data| {
        PutShort(data, 64 - t, Tail(m));
        Short(transform, buf, Tail(m), data);
        ModAdd(|m|, |data|);
        return;
      }
      Absorb(data, t, Tail(m));
      ModAdd(|m|, |data|);
    }

    method PutShort(data: seq<byte>, at: nat, ghost tail: seq<byte>)
      requires block.Length == 64 && at + |data| < 64 && block[..at] == tail
      modifies block
      ensures block[..at + |data|] == tail + data
    {
      CopyIn(block, at, data);
      assert block[..][..at + |data|] == block[..at + |data|];
    }

    /** The first chunk completes the block; whole blocks follow; the rest stays. */
    method Absorb(data: seq<byte>, t: nat, ghost tail: seq<byte>)
      requires block.Length == 64 && 1 <= t <= 64 && t <= |data| && |tail| == 64 - t && block[..64 - t] == tail
      modifies this`buf, block
      ensures buf == Fold(transform, old(buf), tail + data)
      ensures var rest := Tail(tail + data); block[..|rest|] == rest
    {
      hide Fold, Tail;
      CopyIn(block, 64 - t, data[..t]);
      assert block[..] == tail + data[..t];
      assert tail + data == (tail + data[..t]) + data[t..];
      FoldBlock(transform, buf, tail + data[..t], data[t..]);
      ghost var want, rest := Fold(transform, old(buf), tail + data), Tail(tail + data);
      buf := transform(buf, block[..]);
      var p := t;
      while |data| - p >= 64
        invariant t <= p <= |data|
        invariant Fold(transform, buf, data[p..]) == want && Tail(data[p..]) == rest
      {
        assert data[p..] == data[p..p + 64] + data[p + 64..];
        FoldBlock(transform, buf, data[p..p + 64], data[p + 64..]);
        CopyIn(block, 0, data[p..p + 64]);
        assert block[..] == data[p..p + 64];
        buf := transform(buf, block[..]);
        p := p + 64;
      }
      CopyIn(block, 0, data[p..]);
      FewLeft(transform, buf, data[p..]);
      assert block[..|data| - p] == data[p..];
    }

    /** SQUID_MD5Final: the digest of the padded message. */
    method Final() returns (digest: S)
      requires Valid()
      modifies this, block
      ensures digest == Fold(transform, init, Padded(old(msg)))
    {
      hide Fold, Tail, Length;
      ghost var tail, s0 := Tail(msg), buf;
      CountLow(|msg|);
      PaddedFold(transform, init, msg, low, high);
      var count := low % 64;
      var lens := LittleEndian(low * 8 % WORD, 4) + LittleEndian(high * 8 % WORD + low / 0x2000_0000, 4);
      LengthIs(low, high, lens);
      hide LittleEndian;
      CopyIn(block, count, [0x80]);
      var at := count + 1;
      count := 56 - 1 - count;
      if count < 0 {
        CopyIn(block, at, Zeros(count + 8));
        assert block[..] == tail + [0x80] + Zeros(63 - |tail|);
        PadLong(transform, s0, tail, lens);
        buf := transform(buf, block[..]);
        CopyIn(block, 0, Zeros(56));
        CopyIn(block, 56, lens);
        assert block[..] == Zeros(56) + lens;
      } else {
        CopyIn(block, at, Zeros(count));
        CopyIn(block, 56, lens);
        assert block[..] == tail + [0x80] + Zeros(55 - |tail|) + lens;
        PadShort(transform, s0, tail, lens);
      }
      buf := transform(buf, block[..]);
      digest := buf;
    }
  }

  /** The length as Final stores it: two words shifted left by three bits. */
  function Length(low: nat, high: nat): (s: seq<byte>)
    ensures |s| == 8
  {
    LittleEndian(low * 8 % WORD, 4) + LittleEndian(high * 8 % WORD + low / 0x2000_0000, 4)
  }

  lemma LengthIs(low: nat, high: nat, lens: seq<byte>)
    requires lens == LittleEndian(low * 8 % WORD, 4) + LittleEndian(high * 8 % WORD + low / 0x2000_0000, 4)
    ensures lens == Length(low, high)
  {
  }

  lemma PaddedFold<S>(t: (S, seq<byte>) -> S, s: S, m: seq<byte>, low: nat, high: nat)
    requires low == |m| % WORD && high == |m| / WORD % WORD
    ensures Fold(t, s, Padded(m)) == Fold(t, Fold(t, s, m), Tail(m) + ([0x80] + Zeros(PadSize(|m|)) + Length(low, high)))
  {
    hide Fold, Tail, LittleEndian, Zeros;
    BitLength(|m|);
    TwoWords(high * 8 % WORD + low / 0x2000_0000, low * 8 % WORD);
    FoldTail(t, s, m, [0x80] + Zeros(PadSize(|m|)) + Length(low, high));
  }

  lemma ModAdd(n: nat, k: nat)
    ensures (n + k) % 64 == (n % 64 + k) % 64
  {
    Multiple(n - n % 64, n % 64 + k);
  }

  lemma Short<S>(t: (S, seq<byte>) -> S, s: S, a: seq<byte>, b: seq<byte>)
    requires |a| + |b| < 64
    ensures Fold(t, s, a + b) == s && Tail(a + b) == a + b
  {
    FewLeft(t, s, a + b);
  }

  lemma FewLeft<S>(t: (S, seq<byte>) -> S, s: S, a: seq<byte>)
    requires |a| < 64
    ensures Fold(t, s, a) == s && Tail(a) == a
  {
    SmallMod(|a|);
    assert a[0..] == a;
  }

  lemma SmallMod(n: nat)
    requires n < 64
    ensures n % 64 == n
  {
  }

  lemma PadShort<S>(t: (S, seq<byte>) -> S, s: S, tail: seq<byte>, lens: seq<byte>)
    requires |tail| < 56 && |lens| == 8
    ensures Fold(t, s, tail + ([0x80] + Zeros(55 - |tail|) + lens)) == t(s, tail + [0x80] + Zeros(55 - |tail|) + lens)
  {
    var b := tail + [0x80] + Zeros(55 - |tail|) + lens;
    assert b == tail + ([0x80] + Zeros(55 - |tail|) + lens) && b == b + [];
    FoldBlock(t, s, b, []);
  }

  lemma PadRegroup(a: seq<byte>, b: seq<byte>, c: seq<byte>, d: seq<byte>, e: seq<byte>)
    ensures a + (b + (c + d) + e) == (a + b + c) + (d + e)
  {
  }

  lemma FoldNone<S>(t: (S, seq<byte>) -> S, s: S)
    ensures Fold(t, s, []) == s
  {
  }

  lemma PadLong<S>(t: (S, seq<byte>) -> S, s: S, tail: seq<byte>, lens: seq<byte>)
    requires 56 <= |tail| < 64 && |lens| == 8
    ensures Fold(t, s, tail + ([0x80] + Zeros(119 - |tail|) + lens)) == t(t(s, tail + [0x80] + Zeros(63 - |tail|)), Zeros(56) + lens)
  {
    var a, b := tail + [0x80] + Zeros(63 - |tail|), Zeros(56) + lens;
    assert Zeros(119 - |tail|) == Zeros(63 - |tail|) + Zeros(56);
    hide Zeros, Fold;
    PadRegroup(tail, [0x80], Zeros(63 - |tail|), Zeros(56), lens);
    assert b + [] == b;
    assert Fold(t, t(t(s, a), b), []) == t(t(s, a), b) by { FoldNone(t, t(t(s, a), b)); }
    FoldBlock(t, s, a, b + []);
    FoldBlock(t, t(s, a), b, []);
  }
}
