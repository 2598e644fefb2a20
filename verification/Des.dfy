/**
 The Feistel network of lib/encrypt.c.  Blocks and keys are arrays of single bits; the
 selection table E and the key schedule are state that setkey and crypt rewrite, so they may
 hold anything here, and so may the S-boxes.
 */
module Des {
  const BS := 64
  const BS2 := 32
  const KS := 48

  // ----- Permutations -----

  /** The table IP, by rows of eight. */
  function IpRow(r: nat): (row: seq<nat>)
    ensures |row| == 8
  {
    if r == 0 then [57, 49, 41, 33, 25, 17, 9, 1]
    else if r == 1 then [59, 51, 43, 35, 27, 19, 11, 3]
    else if r == 2 then [61, 53, 45, 37, 29, 21, 13, 5]
    else if r == 3 then [63, 55, 47, 39, 31, 23, 15, 7]
    else if r == 4 then [56, 48, 40, 32, 24, 16, 8, 0]
    else if r == 5 then [58, 50, 42, 34, 26, 18, 10, 2]
    else if r == 6 then [60, 52, 44, 36, 28, 20, 12, 4]
    else [62, 54, 46, 38, 30, 22, 14, 6]
  }

  /** The table EP, likewise. */
  function EpRow(r: nat): (row: seq<nat>)
    ensures |row| == 8
  {
    if r == 0 then [7, 39, 15, 47, 23, 55, 31, 63]
    else if r == 1 then [6, 38, 14, 46, 22, 54, 30, 62]
    else if r == 2 then [5, 37, 13, 45, 21, 53, 29, 61]
    else if r == 3 then [4, 36, 12, 44, 20, 52, 28, 60]
    else if r == 4 then [3, 35, 11, 43, 19, 51, 27, 59]
    else if r == 5 then [2, 34, 10, 42, 18, 50, 26, 58]
    else if r == 6 then [1, 33, 9, 41, 17, 49, 25, 57]
    else [0, 32, 8, 40, 16, 48, 24, 56]
  }

  function Ip(i: nat): nat {
    IpRow(i / 8)[i % 8]
  }

  function Ep(i: nat): nat {
    EpRow(i / 8)[i % 8]
  }

  lemma IpFormula(i: nat)
    requires i < 64
    ensures Ip(i) == (if i < 32 then 57 + 2 * (i / 8) else 48 + 2 * (i / 8)) - 8 * (i % 8)
  {
  }

  lemma EpFormula(i: nat)
    requires i < 64
    ensures Ep(i) == (if i % 8 % 2 == 0 then 7 else 35) + 4 * (i % 8) - i / 8
  {
  }

  lemma DivMod(x: int, q: int, m: int)
    requires x == 8 * q + m && 0 <= m < 8
    ensures x / 8 == q && x % 8 == m
  {
  }

  /** EP followed by IP is exactly the swap of the two halves. */
  lemma EpOfIp(i: nat)
    requires i < 64
    ensures Ip(i) < 64 && Ep(Ip(i)) == if i < 32 then i + 32 else i - 32
  {
    var r, c := i / 8, i % 8;
    IpFormula(i);
    DivMod(Ip(i), 7 - c, if i < 32 then 1 + 2 * r else 2 * r - 8);
    EpFormula(Ip(i));
  }

  lemma IpOfEp(i: nat)
    requires i < 64
    ensures Ep(i) < 64 && Ip(if Ep(i) < 32 then Ep(i) + 32 else Ep(i) - 32) == i
  {
    var r, c := i / 8, i % 8;
    var d := c / 2;
    DivMod(i, r, c);
    EpFormula(i);
    var z := if Ep(i) < 32 then Ep(i) + 32 else Ep(i) - 32;
    DivMod(z, if c % 2 == 0 then 4 + d else d, 7 - r);
    IpFormula(z);
  }

  type Bits = seq<bool>

  /** The block after the initial and before the final permutation. */
  function Initial(s: Bits): (t: Bits)
    requires |s| == BS
    ensures |t| == BS
  {
    seq(BS, i requires 0 <= i < BS => if Ip(i) < BS then s[Ip(i)] else false)
  }

  function Final(s: Bits): (t: Bits)
    requires |s| == BS
    ensures |t| == BS
  {
    seq(BS, i requires 0 <= i < BS => if Ep(i) < BS then s[Ep(i)] else false)
  }

  function SwapHalves(s: Bits): (t: Bits)
    requires |s| == BS
    ensures |t| == BS
  {
    s[BS2..] + s[..BS2]
  }

  lemma InitialOfFinal(s: Bits)
    requires |s| == BS
    ensures Initial(Final(s)) == SwapHalves(s)
  {
    hide Ip, Ep;
    forall i | 0 <= i < BS ensures Initial(Final(s))[i] == SwapHalves(s)[i] {
      EpOfIp(i);
    }
  }

  lemma FinalOfInitial(s: Bits)
    requires |s| == BS
    ensures Final(SwapHalves(Initial(s))) == s
  {
    hide Ip, Ep;
    forall i | 0 <= i < BS ensures Final(SwapHalves(Initial(s)))[i] == s[i] {
      IpOfEp(i);
    }
  }

  /** perm with the table IP, or with EP. */
  method Perm(a: array<bool>, e: seq<bool>, initial: bool)
    requires a.Length == |e| == BS
    modifies a
    ensures a[..] == if initial then Initial(e) else Final(e)
  {
    hide Ip, Ep;
    for n := 0 to BS
      invariant forall i :: 0 <= i < n ==> a[i] == if initial then Initial(e)[i] else Final(e)[i]
    {
      EpOfIp(n);
      IpOfEp(n);
      a[n] := e[if initial then Ip(n) else Ep(n)];
    }
  }

  // ----- Rounds -----

  function PermRow(r: nat): (row: seq<nat>)
    ensures |row| == 8 && forall i :: 0 <= i < 8 ==> row[i] < BS2
  {
    if r == 0 then [15, 6, 19, 20, 28, 11, 27, 16]
    else if r == 1 then [0, 14, 22, 25, 4, 17, 30, 9]
    else if r == 2 then [1, 7, 23, 13, 31, 26, 2, 8]
    else [18, 12, 29, 5, 21, 10, 3, 24]
  }

  function P(i: nat): (j: nat)
    ensures j < BS2
  {
    PermRow(i / 8)[i % 8]
  }

  function Xor(a: Bits, b: Bits): (c: Bits)
    requires |a| == |b|
    ensures |c| == |a|
  {
    seq(|a|, i requires 0 <= i < |a| => a[i] != b[i])
  }

  lemma XorTwice(a: Bits, b: Bits)
    requires |a| == |b|
    ensures Xor(Xor(a, b), b) == a
  {
  }

  type Sbox = (nat, nat) -> nat

  predicate Selection(e: seq<nat>) {
    |e| == KS && forall i :: 0 <= i < KS ==> e[i] < BS2
  }

  /** The value of binary place `j`. */
  function Place(j: nat): (w: nat)
    requires j < 6
    ensures w > 0
  {
    if j == 0 then 1 else if j == 1 then 2 else if j == 2 then 4 else if j == 3 then 8 else if j == 4 then 16 else 32
  }

  /** A bit of the half that is read, as selected by E, and the key bit added to it. */
  function Keyed(r: Bits, key: Bits, e: seq<nat>, n: nat): (x: nat)
    requires |r| == BS2 && |key| == KS && Selection(e) && n < KS
  {
    if r[e[n]] != key[n] then 1 else 0
  }

  /** What S-box `i` is looked up with: six such bits, most significant first. */
  function Index(r: Bits, key: Bits, e: seq<nat>, i: nat): (v: nat)
    requires |r| == BS2 && |key| == KS && Selection(e) && i < 8
  {
    Keyed(r, key, e, 6 * i) * 32 + Keyed(r, key, e, 6 * i + 1) * 16 + Keyed(r, key, e, 6 * i + 2) * 8
    + Keyed(r, key, e, 6 * i + 3) * 4 + Keyed(r, key, e, 6 * i + 4) * 2 + Keyed(r, key, e, 6 * i + 5)
  }

  /** Bit `n` of what the S-boxes give: four bits of each value, most significant first. */
  function OutBit(r: Bits, key: Bits, e: seq<nat>, sbox: Sbox, n: nat): (b: bool)
    requires |r| == BS2 && |key| == KS && Selection(e) && n < BS2
  {
    sbox(n / 4, Index(r, key, e, n / 4)) / Place(3 - n % 4) % 2 == 1
  }

  /** Four bits of a value, most significant first. */
  function Nibble(v: nat): (s: Bits)
    ensures |s| == 4
  {
    [v / 8 % 2 == 1, v / 4 % 2 == 1, v / 2 % 2 == 1, v % 2 == 1]
  }

  /** The output of the first `n` bits' worth of S-boxes. */
  function Boxes(r: Bits, key: Bits, e: seq<nat>, sbox: Sbox, n: nat): (t: Bits)
    requires |r| == BS2 && |key| == KS && Selection(e) && n <= BS2
    ensures |t| == n
  {
    seq(n, k requires 0 <= k < n => OutBit(r, key, e, sbox, k))
  }

  /** What crypt_main mixes into the other half. */
  function Mangled(r: Bits, key: Bits, e: seq<nat>, sbox: Sbox): (t: Bits)
    requires |r| == BS2 && |key| == KS && Selection(e)
    ensures |t| == BS2
  {
    Scattered(Boxes(r, key, e, sbox, BS2))
  }

  /** The table PERM applied. */
  function Scattered(t: Bits): (u: Bits)
    requires |t| == BS2
    ensures |u| == BS2
  {
    seq(BS2, i requires 0 <= i < BS2 => t[P(i)])
  }

  /** The bits of an S-box value, stored from the last one back. */
  method PutNibble(v: nat) returns (bits: Bits)
    ensures bits == Nibble(v)
  {
    var sbval := v;
    bits := [];
    var j := 4;
    while j > 0
      invariant 0 <= j <= 4 && bits == Nibble(v)[j..]
      invariant sbval == if j == 4 then v else if j == 3 then v / 2 else if j == 2 then v / 4 else if j == 1 then v / 8 else v / 16
    {
      j := j - 1;
      bits := [sbval % 2 == 1] + bits;
      sbval := sbval / 2;
    }
  }

  /** The first loop of crypt_main. */
  method Substitute(r: Bits, key: Bits, e: seq<nat>, sbox: Sbox) returns (tmp: Bits)
    requires |r| == BS2 && |key| == KS && Selection(e)
    ensures |tmp| == BS2 && forall n :: 0 <= n < BS2 ==> tmp[n] == OutBit(r, key, e, sbox, n)
  {
    hide Nibble, Index, OutBit;
    tmp := [];
    for i := 0 to 8
      invariant |tmp| == 4 * i && forall n :: 0 <= n < 4 * i ==> tmp[n] == OutBit(r, key, e, sbox, n)
    {
      var sbval := SixBits(r, key, e, i);
      var bits := PutNibble(sbox(i, sbval));
      NibbleBits(r, key, e, sbox, i);
      tmp := tmp + bits;
    }
  }

  /** The loop over the six bits of S-box `i`. */
  method SixBits(r: Bits, key: Bits, e: seq<nat>, i: nat) returns (sbval: nat)
    requires |r| == BS2 && |key| == KS && Selection(e) && i < 8
    ensures sbval == Index(r, key, e, i)
  {
    sbval := 0;
    for j := 0 to 6
      invariant sbval == Leading(r, key, e, i, j)
    {
      sbval := 2 * sbval + if r[e[6 * i + j]] != key[6 * i + j] then 1 else 0;
    }
  }

  /** The first `j` of the six bits as a number. */
  function Leading(r: Bits, key: Bits, e: seq<nat>, i: nat, j: nat): (v: nat)
    requires |r| == BS2 && |key| == KS && Selection(e) && i < 8 && j <= 6
    ensures j == 6 ==> v == Index(r, key, e, i)
  {
    var a, b, c, d, f := Keyed(r, key, e, 6 * i), Keyed(r, key, e, 6 * i + 1), Keyed(r, key, e, 6 * i + 2),
                         Keyed(r, key, e, 6 * i + 3), Keyed(r, key, e, 6 * i + 4);
    if j == 0 then 0 else if j == 1 then a else if j == 2 then a * 2 + b else if j == 3 then a * 4 + b * 2 + c
    else if j == 4 then a * 8 + b * 4 + c * 2 + d
    else if j == 5 then a * 16 + b * 8 + c * 4 + d * 2 + f
    else a * 32 + b * 16 + c * 8 + d * 4 + f * 2 + Keyed(r, key, e, 6 * i + 5)
  }

  lemma NibbleBits(r: Bits, key: Bits, e: seq<nat>, sbox: Sbox, i: nat)
    requires |r| == BS2 && |key| == KS && Selection(e) && i < 8
    ensures forall j :: 0 <= j < 4 ==> Nibble(sbox(i, Index(r, key, e, i)))[j] == OutBit(r, key, e, sbox, 4 * i + j)
  {
    hide Index;
  }

  /** One half of a block changed by the other. */
  function MixLeft(b: Bits, key: Bits, e: seq<nat>, sbox: Sbox): (t: Bits)
    requires |b| == BS && |key| == KS && Selection(e)
    ensures |t| == BS
  {
    Xor(b[..BS2], Mangled(b[BS2..], key, e, sbox)) + b[BS2..]
  }

  function MixRight(b: Bits, key: Bits, e: seq<nat>, sbox: Sbox): (t: Bits)
    requires |b| == BS && |key| == KS && Selection(e)
    ensures |t| == BS
  {
    b[..BS2] + Xor(b[BS2..], Mangled(b[..BS2], key, e, sbox))
  }

  /** A round, bit by bit: each bit of one half is changed by the bit of the S-boxes' output that
      PERM picks for it, and the other half stays. */
  predicate OneRound(b: Bits, left: bool, key: Bits, e: seq<nat>, sbox: Sbox, b': Bits)
    requires |b| == BS && |key| == KS && Selection(e)
  {
    && |b'| == BS
    && (left ==> forall k :: 0 <= k < BS ==> b'[k] == if k < BS2 then b[k] != OutBit(b[BS2..], key, e, sbox, P(k)) else b[k])
    && (!left ==> forall k :: 0 <= k < BS ==> b'[k] == if k < BS2 then b[k] else b[k] != OutBit(b[..BS2], key, e, sbox, P(k - BS2)))
  }

  /** crypt_main with the left half first, or the right one. */
  method CryptMain(a: array<bool>, left: bool, key: Bits, e: seq<nat>, sbox: Sbox)
    requires a.Length == BS && |key| == KS && Selection(e)
    modifies a
    ensures a[..] == if left then MixLeft(old(a[..]), key, e, sbox) else MixRight(old(a[..]), key, e, sbox)
    ensures OneRound(old(a[..]), left, key, e, sbox, a[..])
  {
    hide OutBit, Selection, Scattered, Xor, P, OneRound;
    ghost var was := a[..];
    if left {
      var tmp := Substitute(a[BS2..], key, e, sbox);
      assert was[BS2..] == old(a[BS2..]) && tmp == Boxes(was[BS2..], key, e, sbox, BS2);
      MixIn(a, true, tmp);
      MixedBits(was, key, e, sbox, true);
    } else {
      var tmp := Substitute(a[..BS2], key, e, sbox);
      assert was[..BS2] == old(a[..BS2]) && tmp == Boxes(was[..BS2], key, e, sbox, BS2);
      MixIn(a, false, tmp);
      MixedBits(was, key, e, sbox, false);
    }
  }

  lemma MixedBits(b: Bits, key: Bits, e: seq<nat>, sbox: Sbox, left: bool)
    requires |b| == BS && |key| == KS && Selection(e)
    ensures OneRound(b, left, key, e, sbox, if left then MixLeft(b, key, e, sbox) else MixRight(b, key, e, sbox))
  {
    hide OutBit, Selection, P;
  }

  /** The last loop of crypt_main. */
  method MixIn(a: array<bool>, left: bool, tmp: Bits)
    requires a.Length == BS && |tmp| == BS2
    modifies a
    ensures a[..] == if left then Xor(old(a[..])[..BS2], Scattered(tmp)) + old(a[..])[BS2..] else old(a[..])[..BS2] + Xor(old(a[..])[BS2..], Scattered(tmp))
  {
    hide P, Xor;
    ghost var was, mix := a[..], Scattered(tmp);
    var l := if left then 0 else BS2;
    for i := 0 to BS2
      invariant forall k :: 0 <= k < BS && !(l <= k < l + i) ==> a[k] == was[k]
      invariant forall k :: l <= k < l + i ==> a[k] == (was[k] != mix[k - l])
    {
      assert mix[i] == tmp[P(i)];
      a[l + i] := a[l + i] != tmp[P(i)];
    }
    XorIn(was, mix, left, a[..]);
  }

  lemma XorIn(was: Bits, mix: Bits, left: bool, now: Bits)
    requires |was| == |now| == BS && |mix| == BS2
    requires var l := if left then 0 else BS2;
      && (forall k :: 0 <= k < BS && !(l <= k < l + BS2) ==> now[k] == was[k])
      && (forall k :: l <= k < l + BS2 ==> now[k] == (was[k] != mix[k - l]))
    ensures now == if left then Xor(was[..BS2], mix) + was[BS2..] else was[..BS2] + Xor(was[BS2..], mix)
  {
  }

  // ----- The network -----

  /** Rounds on two halves: `x` is changed first, then the other, and so on. */
  function Rounds(x: Bits, y: Bits, keys: seq<Bits>, e: seq<nat>, sbox: Sbox): (r: (Bits, Bits))
    requires |x| == |y| == BS2 && Selection(e) && forall k :: k in keys ==> |k| == KS
    ensures |r.0| == |r.1| == BS2
    decreases |keys|
  {
    if keys == [] then (x, y) else
      assert keys[0] in keys;
      Rounds(y, Xor(x, Mangled(y, keys[0], e, sbox)), keys[1..], e, sbox)
  }

  function Reversed<T>(s: seq<T>): (r: seq<T>)
    ensures |r| == |s| && forall i :: 0 <= i < |s| ==> r[i] == s[|s| - 1 - i]
  {
    if s == [] then [] else Reversed(s[1..]) + [s[0]]
  }

  lemma {:induction false} RoundsSnoc(x: Bits, y: Bits, keys: seq<Bits>, k: Bits, e: seq<nat>, sbox: Sbox)
    requires |x| == |y| == BS2 && Selection(e) && (forall k :: k in keys ==> |k| == KS) && |k| == KS
    ensures forall j :: j in keys + [k] ==> |j| == KS
    ensures var (u, v) := Rounds(x, y, keys, e, sbox); Rounds(x, y, keys + [k], e, sbox) == (v, Xor(u, Mangled(v, k, e, sbox)))
    decreases |keys|
  {
    hide Mangled, Xor, Selection;
    if keys == [] {
      assert keys + [k] == [k] && [k][1..] == [];
    } else {
      assert keys[0] in keys && (keys + [k])[1..] == keys[1..] + [k];
      RoundsSnoc(y, Xor(x, Mangled(y, keys[0], e, sbox)), keys[1..], k, e, sbox);
    }
  }

  /** Each round is its own inverse, so the keys in reverse order undo all of them. */
  lemma {:induction false} RoundsUndo(x: Bits, y: Bits, keys: seq<Bits>, e: seq<nat>, sbox: Sbox)
    requires |x| == |y| == BS2 && Selection(e) && forall k :: k in keys ==> |k| == KS
    ensures forall k :: k in Reversed(keys) ==> |k| == KS
    ensures var (u, v) := Rounds(x, y, keys, e, sbox); Rounds(v, u, Reversed(keys), e, sbox) == (y, x)
    decreases |keys|
  {
    if keys != [] {
      hide Mangled, Xor, Selection;
      var k := keys[0];
      assert k in keys;
      var y' := Xor(x, Mangled(y, k, e, sbox));
      RoundsUndo(y, y', keys[1..], e, sbox);
      var (u, v) := Rounds(x, y, keys, e, sbox);
      RoundsSnoc(v, u, Reversed(keys[1..]), k, e, sbox);
      XorTwice(x, Mangled(y, k, e, sbox));
    }
  }

  /** A block through the whole network. */
  function Crypt(s: Bits, keys: seq<Bits>, e: seq<nat>, sbox: Sbox): (t: Bits)
    requires |s| == BS && Selection(e) && |keys| == 16 && forall k :: k in keys ==> |k| == KS
    ensures |t| == BS
  {
    var b := Initial(s);
    var (l, r) := Rounds(b[..BS2], b[BS2..], keys, e, sbox);
    Final(Joined((l, r)))
  }

  /** Decryption undoes encryption, whatever the schedule, the selection and the S-boxes. */
  lemma DecryptEncrypt(s: Bits, keys: seq<Bits>, e: seq<nat>, sbox: Sbox)
    requires |s| == BS && Selection(e) && |keys| == 16 && forall k :: k in keys ==> |k| == KS
    ensures forall k :: k in Reversed(keys) ==> |k| == KS
    ensures Crypt(Crypt(s, keys, e, sbox), Reversed(keys), e, sbox) == s
  {
    hide Rounds, Initial, Final, Selection;
    var b := Initial(s);
    var (l, r) := Rounds(b[..BS2], b[BS2..], keys, e, sbox);
    RoundsUndo(b[..BS2], b[BS2..], keys, e, sbox);
    InitialOfFinal(l + r);
    assert SwapHalves(l + r) == r + l;
    assert (r + l)[..BS2] == r && (r + l)[BS2..] == l;
    assert b[BS2..] + b[..BS2] == SwapHalves(b);
    FinalOfInitial(s);
  }

  /** A permuted block after the first `n` keys. */
  function AfterKeys(b: Bits, keys: seq<Bits>, n: nat, e: seq<nat>, sbox: Sbox): (t: Bits)
    requires |b| == BS && Selection(e) && n <= |keys| && forall k :: k in keys ==> |k| == KS
    ensures |t| == BS
  {
    Joined(Rounds(b[..BS2], b[BS2..], keys[..n], e, sbox))
  }

  /** encrypt: in place, with the schedule forwards or backwards. */
  method Encrypt(nachr: array<bool>, decr: bool, schedule: seq<Bits>, e: seq<nat>, sbox: Sbox)
    requires nachr.Length == BS && Selection(e) && |schedule| == 16 && forall k :: k in schedule ==> |k| == KS
    modifies nachr
    ensures forall k :: k in Reversed(schedule) ==> |k| == KS
    ensures nachr[..] == Crypt(old(nachr[..]), if decr then Reversed(schedule) else schedule, e, sbox)
  {
    hide Selection, Reversed, AfterKeys, Crypt, Initial, Final;
    ReversedKeys(schedule);
    ghost var keys := if decr then Reversed(schedule) else schedule;
    CryptIs(nachr[..], keys, e, sbox);
    var tmp := new bool[BS];
    Perm(tmp, nachr[..], true);
    EightTimes(tmp, decr, schedule, e, sbox, keys);
    Perm(nachr, tmp[..], false);
  }

  lemma ReversedKeys(keys: seq<Bits>)
    requires forall k :: k in keys ==> |k| == KS
    ensures |Reversed(keys)| == |keys| && forall k :: k in Reversed(keys) ==> |k| == KS
    ensures forall i :: 0 <= i < |keys| ==> Reversed(keys)[i] == keys[|keys| - 1 - i]
  {
    hide Reversed;
    forall k | k in Reversed(keys) ensures |k| == KS {
      var i :| 0 <= i < |keys| && Reversed(keys)[i] == k;
      assert keys[|keys| - 1 - i] in keys;
    }
  }

  lemma CryptIs(s: Bits, keys: seq<Bits>, e: seq<nat>, sbox: Sbox)
    requires |s| == BS && Selection(e) && |keys| == 16 && forall k :: k in keys ==> |k| == KS
    ensures Crypt(s, keys, e, sbox) == Final(AfterKeys(Initial(s), keys, 16, e, sbox))
  {
    hide Rounds, Initial, Final, Selection;
    assert keys[..16] == keys;
  }

  /** The loop of encrypt: two rounds at a time. */
  method EightTimes(tmp: array<bool>, decr: bool, schedule: seq<Bits>, e: seq<nat>, sbox: Sbox, ghost keys: seq<Bits>)
    requires tmp.Length == BS && Selection(e) && |schedule| == |keys| == 16 && (forall k :: k in schedule ==> |k| == KS)
    requires (forall k :: k in keys ==> |k| == KS) && forall i :: 0 <= i < 16 ==> keys[i] == schedule[if decr then 15 - i else i]
    modifies tmp
    ensures tmp[..] == AfterKeys(old(tmp[..]), keys, 16, e, sbox)
  {
    hide AfterKeys, Selection, MixLeft, MixRight, OneRound;
    ghost var b := tmp[..];
    var schl := if decr then 15 else 0;
    AfterNone(b, keys, e, sbox);
    var i := 0;
    while i < 8
      invariant 0 <= i <= 8 && schl == if decr then 15 - 2 * i else 2 * i
      invariant tmp[..] == AfterKeys(b, keys, 2 * i, e, sbox)
    {
      AfterTwo(b, keys, 2 * i, e, sbox);
      assert schedule[schl] == keys[2 * i];
      CryptMain(tmp, true, schedule[schl], e, sbox);
      schl := if decr then schl - 1 else schl + 1;
      assert schedule[schl] == keys[2 * i + 1];
      CryptMain(tmp, false, schedule[schl], e, sbox);
      schl := if decr then schl - 1 else schl + 1;
      i := i + 1;
    }
  }

  lemma AfterNone(b: Bits, keys: seq<Bits>, e: seq<nat>, sbox: Sbox)
    requires |b| == BS && Selection(e) && forall k :: k in keys ==> |k| == KS
    ensures AfterKeys(b, keys, 0, e, sbox) == b
  {
    assert keys[..0] == [];
    RoundsNone(b, e, sbox);
  }

  lemma AfterTwo(b: Bits, keys: seq<Bits>, n: nat, e: seq<nat>, sbox: Sbox)
    requires |b| == BS && Selection(e) && (forall k :: k in keys ==> |k| == KS) && n + 2 <= |keys|
    ensures AfterKeys(b, keys, n + 2, e, sbox) == MixRight(MixLeft(AfterKeys(b, keys, n, e, sbox), keys[n], e, sbox), keys[n + 1], e, sbox)
  {
    hide Selection, MixLeft, MixRight, Rounds, Joined;
    RoundsStep(b[..BS2], b[BS2..], keys, n, e, sbox);
  }

  lemma RoundsNone(b: Bits, e: seq<nat>, sbox: Sbox)
    requires |b| == BS && Selection(e)
    ensures Joined(Rounds(b[..BS2], b[BS2..], [], e, sbox)) == b
  {
  }

  function Joined(h: (Bits, Bits)): (b: Bits)
    ensures |b| == |h.0| + |h.1|
  {
    h.0 + h.1
  }

  lemma MixTwo(h: (Bits, Bits), k1: Bits, k2: Bits, e: seq<nat>, sbox: Sbox)
    requires |h.0| == |h.1| == BS2 && Selection(e) && |k1| == |k2| == KS
    ensures var (u, v) := h; var u' := Xor(u, Mangled(v, k1, e, sbox));
      MixRight(MixLeft(Joined(h), k1, e, sbox), k2, e, sbox) == Joined((u', Xor(v, Mangled(u', k2, e, sbox))))
  {
    hide Mangled, Xor, Selection;
    var (u, v) := h;
    var u' := Xor(u, Mangled(v, k1, e, sbox));
    assert (u + v)[..BS2] == u && (u + v)[BS2..] == v;
    assert (u' + v)[..BS2] == u' && (u' + v)[BS2..] == v;
  }

  lemma RoundsStep(x: Bits, y: Bits, keys: seq<Bits>, n: nat, e: seq<nat>, sbox: Sbox)
    requires |x| == |y| == BS2 && Selection(e) && (forall k :: k in keys ==> |k| == KS) && n + 2 <= |keys|
    ensures Joined(Rounds(x, y, keys[..n + 2], e, sbox)) ==
            MixRight(MixLeft(Joined(Rounds(x, y, keys[..n], e, sbox)), keys[n], e, sbox), keys[n + 1], e, sbox)
  {
    hide Mangled, Xor, Selection, MixLeft, MixRight, Rounds;
    RoundsTwo(x, y, keys, n, e, sbox);
    MixTwo(Rounds(x, y, keys[..n], e, sbox), keys[n], keys[n + 1], e, sbox);
  }

  lemma RoundsTwo(x: Bits, y: Bits, keys: seq<Bits>, n: nat, e: seq<nat>, sbox: Sbox)
    requires |x| == |y| == BS2 && Selection(e) && (forall k :: k in keys ==> |k| == KS) && n + 2 <= |keys|
    ensures var (u, v) := Rounds(x, y, keys[..n], e, sbox); var u' := Xor(u, Mangled(v, keys[n], e, sbox));
      Rounds(x, y, keys[..n + 2], e, sbox) == (u', Xor(v, Mangled(u', keys[n + 1], e, sbox)))
  {
    hide Mangled, Xor, Selection;
    assert keys[..n + 1] == keys[..n] + [keys[n]] && keys[..n + 2] == keys[..n + 1] + [keys[n + 1]];
    RoundsSnoc(x, y, keys[..n], keys[n], e, sbox);
    RoundsSnoc(x, y, keys[..n + 1], keys[n + 1], e, sbox);
  }

  // ----- What one key bit does -----

  function Flipped(key: Bits, b: nat): (key': Bits)
    requires b < |key|
    ensures |key'| == |key|
  {
    key[b := !key[b]]
  }

  /** A key bit moves the index of its own S-box by the value of its place, up or down, and no
      other index. */
  lemma FlipIndex(r: Bits, key: Bits, e: seq<nat>, b: nat)
    requires |r| == BS2 && |key| == KS && Selection(e) && b < KS
    ensures var i, w := b / 6, Place(5 - b % 6);
      Index(r, Flipped(key, b), e, i) == if r[e[b]] != key[b] then Index(r, key, e, i) - w else Index(r, key, e, i) + w
    ensures forall i :: 0 <= i < 8 && i != b / 6 ==> Index(r, Flipped(key, b), e, i) == Index(r, key, e, i)
  {
    forall n | 0 <= n < KS && n != b ensures Keyed(r, Flipped(key, b), e, n) == Keyed(r, key, e, n) {
    }
    assert Keyed(r, Flipped(key, b), e, b) == 1 - Keyed(r, key, e, b);
    assert Keyed(r, key, e, b) == if r[e[b]] != key[b] then 1 else 0;
    hide Keyed, Selection, Flipped;
    assert b == 6 * (b / 6) + b % 6;
  }

  function UnpermRow(r: nat): (row: seq<nat>)
    ensures |row| == 8 && forall i :: 0 <= i < 8 ==> row[i] < BS2
  {
    if r == 0 then [8, 16, 22, 30, 12, 27, 1, 17]
    else if r == 1 then [23, 15, 29, 5, 25, 19, 9, 0]
    else if r == 2 then [7, 13, 24, 2, 3, 28, 10, 18]
    else [31, 11, 21, 6, 4, 26, 14, 20]
  }

  /** PERM sends every output bit to some place. */
  lemma PermOnto(n: nat) returns (k: nat)
    requires n < BS2
    ensures k < BS2 && P(k) == n
  {
    k := UnpermRow(n / 8)[n % 8];
  }

  /** Numbers agree in their last four bits exactly if they agree modulo 16. */
  lemma NibbleSame(v: nat, v': nat)
    ensures v % 16 == v' % 16 <==> forall j :: 0 <= j < 4 ==> v / Place(j) % 2 == v' / Place(j) % 2
  {
    NibbleValue(v);
    NibbleValue(v');
    assert Place(0) == 1 && Place(1) == 2 && Place(2) == 4 && Place(3) == 8;
    hide Place;
    var a, b, c, d := v / 8 % 2, v / 4 % 2, v / 2 % 2, v % 2;
    var a', b', c', d' := v' / 8 % 2, v' / 4 % 2, v' / 2 % 2, v' % 2;
    FourBits(a, b, c, d, a', b', c', d');
    if forall j :: 0 <= j < 4 ==> v / Place(j) % 2 == v' / Place(j) % 2 {
      assert v / Place(0) % 2 == v' / Place(0) % 2 && v / Place(1) % 2 == v' / Place(1) % 2;
      assert v / Place(2) % 2 == v' / Place(2) % 2 && v / Place(3) % 2 == v' / Place(3) % 2;
    }
  }

  lemma FourBits(a: nat, b: nat, c: nat, d: nat, a': nat, b': nat, c': nat, d': nat)
    requires a < 2 && b < 2 && c < 2 && d < 2 && a' < 2 && b' < 2 && c' < 2 && d' < 2
    ensures a * 8 + b * 4 + c * 2 + d == a' * 8 + b' * 4 + c' * 2 + d' <==> a == a' && b == b' && c == c' && d == d'
  {
  }

  lemma NibbleValue(v: nat)
    ensures v % 16 == v / 8 % 2 * 8 + v / 4 % 2 * 4 + v / 2 % 2 * 2 + v % 2
  {
    TopBit(v / 8, v % 8, 8);
    TopBit(v / 4, v % 4, 4);
    TopBit(v / 2, v % 2, 2);
  }

  lemma TopBit(q: nat, x: nat, m: nat)
    requires (m == 2 || m == 4 || m == 8) && x < m
    ensures (m * q + x) % (2 * m) == q % 2 * m + x
  {
    var h, t := q / 2, q % 2;
    assert q == 2 * h + t;
    if m == 2 {
      assert 2 * q + x == 4 * h + (2 * t + x);
    } else if m == 4 {
      assert 4 * q + x == 8 * h + (4 * t + x);
    } else {
      assert 8 * q + x == 16 * h + (8 * t + x);
    }
  }

  /** One round notices a key bit exactly if the S-box gives another value for the other index. */
  lemma FlipRound(r: Bits, key: Bits, e: seq<nat>, sbox: Sbox, b: nat)
    requires |r| == BS2 && |key| == KS && Selection(e) && b < KS
    ensures var i := b / 6;
      Mangled(r, Flipped(key, b), e, sbox) == Mangled(r, key, e, sbox) <==>
        sbox(i, Index(r, Flipped(key, b), e, i)) % 16 == sbox(i, Index(r, key, e, i)) % 16
  {
    var i, key' := b / 6, Flipped(key, b);
    FlipIndex(r, key, e, b);
    hide Index, Selection, P, Place, Flipped;
    var v, v' := sbox(i, Index(r, key, e, i)), sbox(i, Index(r, key', e, i));
    NibbleSame(v, v');
    var m, m' := Mangled(r, key, e, sbox), Mangled(r, key', e, sbox);
    if m == m' {
      forall j | 0 <= j < 4 ensures v / Place(j) % 2 == v' / Place(j) % 2 {
        var n := 4 * i + (3 - j);
        var k := PermOnto(n);
        assert n / 4 == i && 3 - n % 4 == j;
        assert m[k] == OutBit(r, key, e, sbox, n) && m'[k] == OutBit(r, key', e, sbox, n);
      }
    }
    if v % 16 == v' % 16 {
      forall k | 0 <= k < BS2 ensures m[k] == m'[k] {
        var n := P(k);
        assert m[k] == OutBit(r, key, e, sbox, n) && m'[k] == OutBit(r, key', e, sbox, n);
        assert n / 4 == i ==> v / Place(3 - n % 4) % 2 == v' / Place(3 - n % 4) % 2;
      }
    }
  }

  lemma {:induction false} RoundsAppend(x: Bits, y: Bits, a: seq<Bits>, b: seq<Bits>, e: seq<nat>, sbox: Sbox)
    requires |x| == |y| == BS2 && Selection(e) && (forall k :: k in a ==> |k| == KS) && forall k :: k in b ==> |k| == KS
    ensures forall k :: k in a + b ==> |k| == KS
    ensures var (u, v) := Rounds(x, y, a, e, sbox); Rounds(x, y, a + b, e, sbox) == Rounds(u, v, b, e, sbox)
    decreases |a|
  {
    hide Mangled, Xor, Selection;
    if a == [] {
      assert a + b == b;
    } else {
      assert a[0] in a && (a + b)[1..] == a[1..] + b;
      RoundsAppend(y, Xor(x, Mangled(y, a[0], e, sbox)), a[1..], b, e, sbox);
    }
  }

  /** Rounds lose nothing. */
  lemma RoundsInjective(x: Bits, y: Bits, x': Bits, y': Bits, keys: seq<Bits>, e: seq<nat>, sbox: Sbox)
    requires |x| == |y| == |x'| == |y'| == BS2 && Selection(e) && forall k :: k in keys ==> |k| == KS
    requires Rounds(x, y, keys, e, sbox) == Rounds(x', y', keys, e, sbox)
    ensures x == x' && y == y'
  {
    hide Rounds, Selection;
    RoundsUndo(x, y, keys, e, sbox);
    RoundsUndo(x', y', keys, e, sbox);
  }

  lemma XorInjective(a: Bits, b: Bits, c: Bits)
    requires |a| == |b| == |c|
    ensures Xor(a, b) == Xor(a, c) <==> b == c
  {
    if Xor(a, b) == Xor(a, c) {
      forall i | 0 <= i < |b| ensures b[i] == c[i] {
        assert Xor(a, b)[i] == Xor(a, c)[i];
      }
    }
  }

  lemma FinalInjective(h: (Bits, Bits), h': (Bits, Bits))
    requires |h.0| == |h.1| == |h'.0| == |h'.1| == BS2
    ensures Final(Joined(h)) == Final(Joined(h')) <==> h == h'
  {
    hide Final, Initial;
    if Final(Joined(h)) == Final(Joined(h')) {
      InitialOfFinal(Joined(h));
      InitialOfFinal(Joined(h'));
      var s, s' := SwapHalves(Joined(h)), SwapHalves(Joined(h'));
      assert s[..BS2] == h.1 && s[BS2..] == h.0 && s'[..BS2] == h'.1 && s'[BS2..] == h'.0;
    }
  }

  /** The half that the S-boxes read in round `t`. */
  function ReadIn(s: Bits, keys: seq<Bits>, t: nat, e: seq<nat>, sbox: Sbox): (r: Bits)
    requires |s| == BS && Selection(e) && t <= |keys| && forall k :: k in keys ==> |k| == KS
    ensures |r| == BS2
  {
    var b := Initial(s);
    Rounds(b[..BS2], b[BS2..], keys[..t], e, sbox).1
  }

  /** The ciphertext depends on a bit of a round key exactly if, in that round, the S-box has
      another value at the index moved by the place value of that bit. */
  lemma KeyBitMatters(s: Bits, keys: seq<Bits>, t: nat, b: nat, e: seq<nat>, sbox: Sbox)
    requires |s| == BS && Selection(e) && |keys| == 16 && (forall k :: k in keys ==> |k| == KS) && t < 16 && b < KS
    ensures keys[t] in keys && forall k :: k in keys[t := Flipped(keys[t], b)] ==> |k| == KS
    ensures var r, i, w := ReadIn(s, keys, t, e, sbox), b / 6, Place(5 - b % 6);
      var at := Index(r, keys[t], e, i);
      var at' := if r[e[b]] != keys[t][b] then at - w else at + w;
      && at' >= 0
      && (Crypt(s, keys[t := Flipped(keys[t], b)], e, sbox) != Crypt(s, keys, e, sbox) <==> sbox(i, at') % 16 != sbox(i, at) % 16)
  {
    var key, key' := keys[t], Flipped(keys[t], b);
    assert key in keys;
    var keys' := keys[t := key'];
    forall k | k in keys' ensures |k| == KS {
      assert k == key' || k in keys;
    }
    var i0 := Initial(s);
    var (x, y) := Rounds(i0[..BS2], i0[BS2..], keys[..t], e, sbox);
    FlipIndex(y, key, e, b);
    FlipRound(y, key, e, sbox, b);
    hide Rounds, Initial, Final, Selection, Mangled, Index, Flipped, Xor, Crypt;
    CryptRound(s, keys, keys, t, e, sbox);
    CryptRound(s, keys, keys', t, e, sbox);
    var m, m' := Xor(x, Mangled(y, key, e, sbox)), Xor(x, Mangled(y, key', e, sbox));
    XorInjective(x, Mangled(y, key, e, sbox), Mangled(y, key', e, sbox));
    var rest := keys[t + 1..];
    FinalInjective(Rounds(y, m, rest, e, sbox), Rounds(y, m', rest, e, sbox));
    if Rounds(y, m, rest, e, sbox) == Rounds(y, m', rest, e, sbox) {
      RoundsInjective(y, m, y, m', rest, e, sbox);
    }
  }

  /** Encryption as the rounds up to `t`, round `t`, and the rest. */
  lemma CryptRound(s: Bits, keys: seq<Bits>, keys': seq<Bits>, t: nat, e: seq<nat>, sbox: Sbox)
    requires |s| == BS && Selection(e) && |keys| == |keys'| == 16 && t < 16
    requires (forall k :: k in keys ==> |k| == KS) && forall k :: k in keys' ==> |k| == KS
    requires forall i :: 0 <= i < 16 && i != t ==> keys'[i] == keys[i]
    ensures keys'[t] in keys'
    ensures var b := Initial(s); var (x, y) := Rounds(b[..BS2], b[BS2..], keys[..t], e, sbox);
      Crypt(s, keys', e, sbox) == Final(Joined(Rounds(y, Xor(x, Mangled(y, keys'[t], e, sbox)), keys[t + 1..], e, sbox)))
  {
    var b := Initial(s);
    var tail := [keys'[t]] + keys[t + 1..];
    assert keys' == keys[..t] + tail && tail[1..] == keys[t + 1..];
    forall k | k in tail ensures |k| == KS {
      assert k in keys' || k in keys;
    }
    hide Initial, Final, Selection, Mangled, Xor;
    RoundsAppend(b[..BS2], b[BS2..], keys[..t], tail, e, sbox);
  }
}
